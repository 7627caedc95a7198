/** The repository's own checks, stated on the model, and the inputs behind
    the finding about full-length tuples below the root. */
module Examples {
  import opened Views
  import OnlineArray
  import OnlineMatrix
  import Utils

  /** `f(x, y) = x + y + 1`, a function of two coordinates. */
  const F: Fn<int> := Fn(2, (c: seq<int>) => if |c| == 2 then c[0] + c[1] + 1 else 0)

  /** `g(x, y, z) = x * y + z + 1`, a function of three coordinates. */
  const G: Fn<int> := Fn(3, (c: seq<int>) => if |c| == 3 then c[0] * c[1] + c[2] + 1 else 0)

  /** A 4 x 3 online array of `f`: element (2, 2) is 5 by nested-list and
      by numpy subscription, and the array keeps its shape and two axes. */
  lemma ArrayOfTwoAxes()
    ensures var m := OnlineArray.Create(F, [4, 3]);
      m.shape == [4, 3] && m.dims == 2
      && OnlineArray.Get(OnlineArray.Get(m, Scalar(2)).view, Scalar(2)) == Val(5)
      && OnlineArray.Get(m, Tup([2, 2])) == Val(5)
  {
  }

  /** A 4 x 3 x 5 online array of `g`: element (2, 2, 1) is 6 both ways, and
      the row `m[0][1]`, reached by scalars or by the tuple (0, 1), holds 3
      at position 2. */
  lemma ArrayOfThreeAxes()
    ensures var m := OnlineArray.Create(G, [4, 3, 5]);
      m.shape == [4, 3, 5] && m.dims == 3
      && OnlineArray.Chain(m, [2, 2, 1]) == Val(6)
      && OnlineArray.Get(m, Tup([2, 2, 1])) == Val(6)
      && OnlineArray.Get(OnlineArray.Chain(m, [0, 1]).view, Scalar(2)) == Val(3)
      && OnlineArray.Get(OnlineArray.Get(m, Tup([0, 1])).view, Scalar(2)) == Val(3)
  {
    assert [0, 1] + [2] == [0, 1, 2];
  }

  /** The same checks on the older revision, which has no partial tuples. */
  lemma MatrixChecks()
    ensures var m := OnlineMatrix.Create(F, [4, 3]);
      m.shape == [4, 3] && m.dims == 2
      && OnlineMatrix.Get(OnlineMatrix.Get(m, Scalar(2)).view, Scalar(2)) == Val(5)
      && OnlineMatrix.Get(m, Tup([2, 2])) == Val(5)
    ensures var m := OnlineMatrix.Create(G, [4, 3, 5]);
      m.shape == [4, 3, 5] && m.dims == 3
      && OnlineMatrix.Chain(m, [2, 2, 1]) == Val(6)
      && OnlineMatrix.Get(m, Tup([2, 2, 1])) == Val(6)
  {
  }

  /** Below the root of the array of `g`, at `m[0]`: the tuple (1, 2) names
      a full element but raises the arity error, while `m[0][1][2]` is 3;
      with the prefix restored the tuple gives 3 as well. The tuple
      (1, 2, 3) succeeds, with the root's element (1, 2, 3), not one of
      `m[0]`'s. */
  lemma FullTupleBelowRoot()
    ensures var v := OnlineArray.Get(OnlineArray.Create(G, [4, 3, 5]), Scalar(0)).view;
      v.params == [0] && v.dims == 2
      && OnlineArray.Get(v, Tup([1, 2])) == ArityError
      && OnlineArray.Chain(v, [1, 2]) == Val(3)
      && OnlineArray.GetWithPrefix(v, Tup([1, 2])) == Val(3)
      && OnlineArray.Get(v, Tup([1, 2, 3])) == Val(6)
  {
    var v := OnlineArray.Get(OnlineArray.Create(G, [4, 3, 5]), Scalar(0)).view;
    assert v.params + [1, 2] == [0, 1, 2];
    OnlineArray.TupleEqualsChain(v, [1, 2]);
  }

  /** Filling a 2 x 3 buffer with `f` from the root writes the rows (1, 2, 3)
      and (2, 3, 4) one after the other. */
  method FillTwoByThree() returns (cells: seq<int>)
    ensures cells == [1, 2, 3, 2, 3, 4]
  {
    var a := new int[6](_ => 0);
    var f := F.apply;
    var shape: seq<nat> := [2, 3];
    assert Utils.Product(shape) == 6 by {
      assert shape[1..][1..] == [];
    }
    ghost var visited := Utils.FillArray(a, shape, f);
    cells := a[..];
    CellOfTwoByThree(cells, f, 0, 0);
    CellOfTwoByThree(cells, f, 0, 1);
    CellOfTwoByThree(cells, f, 0, 2);
    CellOfTwoByThree(cells, f, 1, 0);
    CellOfTwoByThree(cells, f, 1, 1);
    CellOfTwoByThree(cells, f, 1, 2);
  }

  /** In a filled 2 x 3 buffer, element (i, j) sits at position 3 * i + j. */
  lemma CellOfTwoByThree<V>(cells: seq<V>, f: seq<int> -> V, i: int, j: int)
    requires Utils.Written([2, 3], cells, f, [])
    requires 0 <= i < 2 && 0 <= j < 3
    ensures |cells| == 6 && cells[3 * i + j] == f([i, j])
  {
    var shape: seq<nat> := [2, 3];
    assert Utils.Product(shape) == 6 by {
      assert shape[1..][1..] == [];
    }
    Utils.ChildOffset(shape, [i], j);
    Utils.ChildOffset(shape, [], i);
    Utils.BlockSizeStep(shape, 1);
    Utils.BlockSizeEnd(shape);
    assert [] + [i] == [i];
    assert [i] + [j] == [i, j];
    assert Utils.InBounds(shape, [i, j]);
    assert cells[Utils.Offset(shape, [i, j])] == f([i, j]);
  }
}
