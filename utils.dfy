/** `fill_array` (online_array/utils.py): a depth-first walk over every
    coordinate of a destination array that writes the coordinate function's
    value into each cell. The destination is a flat buffer laid out in
    row-major order, as a C-contiguous numpy array is. */
module Utils {

  /** Number of cells of an array of the given shape. */
  function Product(shape: seq<nat>): nat
  {
    if shape == [] then 1 else shape[0] * Product(shape[1..])
  }

  /** Number of cells that share one coordinate prefix of length `d`. */
  function BlockSize(shape: seq<nat>, d: nat): nat
    requires d <= |shape|
  {
    Product(shape[d..])
  }

  lemma BlockSizeStep(shape: seq<nat>, d: nat)
    requires d < |shape|
    ensures BlockSize(shape, d) == shape[d] * BlockSize(shape, d + 1)
  {
    assert shape[d..][1..] == shape[d + 1..];
  }

  lemma BlockSizeEnd(shape: seq<nat>)
    ensures BlockSize(shape, |shape|) == 1
  {
    assert shape[|shape|..] == [];
  }

  /** Every coordinate present lies within its axis. */
  predicate InBounds(shape: seq<nat>, c: seq<int>)
  {
    |c| <= |shape| && forall k :: 0 <= k < |c| ==> 0 <= c[k] < shape[k]
  }

  /** Row-major position, in the flat buffer, of the first cell whose
      coordinates start with `c`; for a full coordinate tuple, the position
      of its own cell. The block of cells under an in-bounds prefix lies
      inside the buffer. */
  function Offset(shape: seq<nat>, c: seq<int>): (r: int)
    requires |c| <= |shape|
    ensures InBounds(shape, c) ==> 0 <= r && r + BlockSize(shape, |c|) <= Product(shape)
    ensures InBounds(shape, c) && |c| == |shape| ==> r < Product(shape)
  {
    if c == [] then
      assert shape[0..] == shape;
      0
    else
      var k := |c| - 1;
      var o := Offset(shape, c[..k]);
      BlockSizeStep(shape, k);
      BlockSizeEnd(shape);
      assert InBounds(shape, c) ==> InBounds(shape, c[..k]);
      StepWithin(c[k], shape[k], BlockSize(shape, k + 1));
      o + c[k] * BlockSize(shape, k + 1)
  }

  lemma MulMono(x: int, y: int, b: int)
    requires x <= y && 0 <= b
    ensures x * b <= y * b
  {
  }

  lemma Distrib(m: int, k: int, b: int)
    ensures (m + k) * b == m * b + k * b
  {
  }

  /** The x-th of s sub-blocks of size b lies inside their parent block. */
  lemma StepWithin(x: int, s: int, b: int)
    ensures 0 <= x < s && 0 <= b ==> 0 <= x * b && x * b + b <= s * b
  {
    if 0 <= x < s && 0 <= b {
      MulMono(x + 1, s, b);
      Distrib(x, 1, b);
    }
  }

  /** The cell of a full coordinate tuple lies in the block of each of its
      prefixes. */
  lemma {:induction false} CellInBlock(shape: seq<nat>, c: seq<int>, d: nat)
    requires InBounds(shape, c) && |c| == |shape| && d <= |c|
    ensures Offset(shape, c[..d]) <= Offset(shape, c) < Offset(shape, c[..d]) + BlockSize(shape, d)
    decreases |c| - d
  {
    if d == |c| {
      assert c[..d] == c;
      BlockSizeEnd(shape);
    } else {
      CellInBlock(shape, c, d + 1);
      PrefixOffset(shape, c, d);
      BlockSizeStep(shape, d);
      StepWithin(c[d], shape[d], BlockSize(shape, d + 1));
    }
  }

  /** The start of a prefix one longer, read off the coordinates. */
  lemma PrefixOffset(shape: seq<nat>, c: seq<int>, d: nat)
    requires d < |c| <= |shape|
    ensures Offset(shape, c[..d + 1]) == Offset(shape, c[..d]) + c[d] * BlockSize(shape, d + 1)
  {
    assert c[..d + 1][..d] == c[..d];
  }

  /** The start of the block of `p + [i]`. */
  lemma ChildOffset(shape: seq<nat>, p: seq<int>, i: int)
    requires |p| < |shape|
    ensures Offset(shape, p + [i]) == Offset(shape, p) + i * BlockSize(shape, |p| + 1)
  {
    assert (p + [i])[..|p|] == p;
  }

  /** Every full coordinate tuple that extends `p`, in the order the walk
      visits them: the axis after `p` ascending, depth first. */
  function Enum(shape: seq<nat>, p: seq<int>): seq<seq<int>>
    requires |p| <= |shape|
    decreases |shape| - |p|, if |p| < |shape| then shape[|p|] + 1 else 0
  {
    if |p| == |shape| then [p] else Upto(shape, p, shape[|p|])
  }

  /** The visits under `p + [0]`, ..., `p + [i - 1]`, one after the other. */
  function Upto(shape: seq<nat>, p: seq<int>, i: nat): seq<seq<int>>
    requires |p| < |shape|
    decreases |shape| - |p|, i
  {
    if i == 0 then [] else Upto(shape, p, i - 1) + Enum(shape, p + [i - 1])
  }

  /** One more child of `p` appends that child's visits. */
  lemma UptoStep(shape: seq<nat>, p: seq<int>, i: nat)
    requires |p| < |shape|
    ensures Upto(shape, p, i + 1) == Upto(shape, p, i) + Enum(shape, p + [i])
    ensures |p| + 1 == |shape| ==> Enum(shape, p + [i]) == [p + [i]]
  {
  }

  /** `c` is a full in-bounds tuple extending `p` whose cell is the j-th of
      `p`'s block. */
  ghost predicate VisitAt(shape: seq<nat>, p: seq<int>, c: seq<int>, j: int)
  {
    |c| == |shape| && InBounds(shape, c) && p <= c && Offset(shape, c) == Offset(shape, p) + j
  }

  /** The visits under `p` are full in-bounds tuples extending `p`, one per
      cell of `p`'s block, and the j-th of them is the j-th cell of the
      block: cells are visited in ascending buffer order, each once. */
  lemma {:induction false} EnumShape(shape: seq<nat>, p: seq<int>)
    requires InBounds(shape, p)
    ensures |Enum(shape, p)| == BlockSize(shape, |p|)
    ensures forall j :: 0 <= j < |Enum(shape, p)| ==> VisitAt(shape, p, Enum(shape, p)[j], j)
    decreases |shape| - |p|, if |p| < |shape| then shape[|p|] + 1 else 0
  {
    if |p| == |shape| {
      BlockSizeEnd(shape);
    } else {
      UptoShape(shape, p, shape[|p|]);
      BlockSizeStep(shape, |p|);
    }
  }

  lemma {:induction false} UptoShape(shape: seq<nat>, p: seq<int>, i: nat)
    requires InBounds(shape, p) && |p| < |shape| && i <= shape[|p|]
    ensures |Upto(shape, p, i)| == i * BlockSize(shape, |p| + 1)
    ensures forall j :: 0 <= j < |Upto(shape, p, i)| ==> VisitAt(shape, p, Upto(shape, p, i)[j], j)
    decreases |shape| - |p|, i
  {
    if i > 0 {
      var b := BlockSize(shape, |p| + 1);
      var q := p + [i - 1];
      var u := Upto(shape, p, i - 1);
      var e := Enum(shape, q);
      UptoShape(shape, p, i - 1);
      EnumShape(shape, q);
      assert Upto(shape, p, i) == u + e;
      assert |u + e| == i * b by {
        Distrib(i - 1, 1, b);
      }
      assert Offset(shape, q) == Offset(shape, p) + |u| by {
        ChildOffset(shape, p, i - 1);
      }
      ConcatVisits(shape, p, i - 1, u, e);
    }
  }

  /** The visits under the first x children followed by those under child
      `p + [x]`, which starts where the first x children end, are visits
      under `p` at consecutive cells. */
  lemma ConcatVisits(shape: seq<nat>, p: seq<int>, x: int, u: seq<seq<int>>, e: seq<seq<int>>)
    requires |p| < |shape|
    requires forall j :: 0 <= j < |u| ==> VisitAt(shape, p, u[j], j)
    requires forall k :: 0 <= k < |e| ==> VisitAt(shape, p + [x], e[k], k)
    requires Offset(shape, p + [x]) == Offset(shape, p) + |u|
    ensures forall j :: 0 <= j < |u + e| ==> VisitAt(shape, p, (u + e)[j], j)
  {
    forall j | 0 <= j < |u + e|
      ensures VisitAt(shape, p, (u + e)[j], j)
    {
      if j < |u| {
        assert (u + e)[j] == u[j];
      } else {
        assert (u + e)[j] == e[j - |u|];
        VisitUnderChild(shape, p, x, e[j - |u|], j - |u|, |u|);
      }
    }
  }

  /** The k-th visit under child `p + [x]`, whose block starts `m` cells into
      `p`'s block, is the (m + k)-th visit under `p`. */
  lemma VisitUnderChild(shape: seq<nat>, p: seq<int>, x: int, c: seq<int>, k: int, m: int)
    requires |p| < |shape|
    requires VisitAt(shape, p + [x], c, k)
    requires Offset(shape, p + [x]) == Offset(shape, p) + m
    ensures VisitAt(shape, p, c, m + k)
  {
    assert c[..|p|] == (p + [x])[..|p|];
  }

  /** Every full in-bounds tuple extending `p` is visited under `p`. */
  lemma {:induction false} EnumComplete(shape: seq<nat>, p: seq<int>, c: seq<int>)
    requires InBounds(shape, c) && |c| == |shape| && p <= c
    ensures c in Enum(shape, p)
    decreases |shape| - |p|, if |p| < |shape| then shape[|p|] + 1 else 0
  {
    if |p| == |shape| {
      assert p == c;
    } else {
      UptoComplete(shape, p, shape[|p|], c);
    }
  }

  lemma {:induction false} UptoComplete(shape: seq<nat>, p: seq<int>, i: nat, c: seq<int>)
    requires InBounds(shape, c) && |c| == |shape| && |p| < |shape| && p <= c && c[|p|] < i
    ensures c in Upto(shape, p, i)
    decreases |shape| - |p|, i
  {
    if c[|p|] == i - 1 {
      assert p + [i - 1] <= c by {
        assert c[..|p| + 1] == c[..|p|] + [c[|p|]];
      }
      EnumComplete(shape, p + [i - 1], c);
    } else {
      UptoComplete(shape, p, i - 1, c);
    }
  }

  /** A product with a zero factor is zero. */
  lemma {:induction false} ProductZero(shape: seq<nat>, d: nat)
    requires d < |shape| && shape[d] == 0
    ensures Product(shape) == 0
  {
    if d > 0 {
      ProductZero(shape[1..], d - 1);
    }
  }

  /** When an axis at or below the current depth is empty, the walk under
      `p` visits nothing, so it writes no cell. */
  lemma ZeroExtentWritesNothing(shape: seq<nat>, p: seq<int>, d: nat)
    requires InBounds(shape, p) && |p| <= d < |shape| && shape[d] == 0
    ensures Enum(shape, p) == []
    ensures BlockSize(shape, |p|) == 0
  {
    EnumShape(shape, p);
    ProductZero(shape[|p|..], d - |p|);
  }

  /** From the root the walk visits the cells 0, 1, ..., in buffer order:
      all of them, each once. */
  lemma RootWalkIsRowMajor(shape: seq<nat>)
    ensures |Enum(shape, [])| == Product(shape)
    ensures forall j :: 0 <= j < |Enum(shape, [])| ==>
      |Enum(shape, [])[j]| == |shape| && InBounds(shape, Enum(shape, [])[j])
      && Offset(shape, Enum(shape, [])[j]) == j
  {
    EnumShape(shape, []);
    assert shape[0..] == shape;
  }

  /** The walk from the root never visits a cell twice: distinct steps
      visit distinct coordinates, hence distinct buffer positions. */
  lemma VisitsDistinct(shape: seq<nat>)
    ensures forall j, k :: 0 <= j < k < |Enum(shape, [])| ==>
      Enum(shape, [])[j] != Enum(shape, [])[k]
  {
    RootWalkIsRowMajor(shape);
  }

  /** A buffer in which every in-bounds cell holds the function's value at
      its coordinates holds, at every position, the value at the
      coordinates the root walk visits there: no cell is left over. */
  lemma Coverage<V>(shape: seq<nat>, cells: seq<V>, f: seq<int> -> V)
    requires Written(shape, cells, f, [])
    ensures |Enum(shape, [])| == |cells|
    ensures forall k :: 0 <= k < |cells| ==> cells[k] == f(Enum(shape, [])[k])
  {
    RootWalkIsRowMajor(shape);
  }

  /** A cell under an earlier sibling `p + [j]`, j < i, lies before the
      block of `p + [i]`. */
  lemma EarlierSibling(shape: seq<nat>, p: seq<int>, c: seq<int>, i: int)
    requires InBounds(shape, c) && |c| == |shape| && p <= c && |p| < |shape| && c[|p|] < i
    ensures Offset(shape, c) < Offset(shape, p) + i * BlockSize(shape, |p| + 1)
  {
    var d := |p|;
    CellInBlock(shape, c, d + 1);
    PrefixOffset(shape, c, d);
    StepBefore(c[d], i, BlockSize(shape, d + 1));
    assert p == c[..d];
  }

  /** Sub-block x ends where sub-block i starts, or before, when x < i. */
  lemma StepBefore(x: int, i: int, b: int)
    requires x < i && 0 <= b
    ensures x * b + b <= i * b
  {
    MulMono(x + 1, i, b);
    Distrib(x, 1, b);
  }

  /** Every cell below prefix `p` whose coordinate on the axis after `p` is
      less than `i` holds the function's value at its coordinates. */
  ghost predicate WrittenBelow<V>(shape: seq<nat>, cells: seq<V>, f: seq<int> -> V, p: seq<int>, i: int)
    requires |p| < |shape|
  {
    |cells| == Product(shape)
    && forall c: seq<int> {:trigger cells[Offset(shape, c)]} ::
      InBounds(shape, c) && |c| == |shape| && p <= c && c[|p|] < i ==> cells[Offset(shape, c)] == f(c)
  }

  /** Every cell below prefix `p` holds the function's value at its
      coordinates. */
  ghost predicate Written<V>(shape: seq<nat>, cells: seq<V>, f: seq<int> -> V, p: seq<int>)
    requires |p| <= |shape|
  {
    |cells| == Product(shape)
    && forall c: seq<int> {:trigger cells[Offset(shape, c)]} ::
      InBounds(shape, c) && |c| == |shape| && p <= c ==> cells[Offset(shape, c)] == f(c)
  }

  /** Two buffers agree everywhere outside positions lo .. hi - 1. */
  ghost predicate SameOutside<V>(s: seq<V>, t: seq<V>, lo: int, hi: int)
  {
    |s| == |t| && forall k :: 0 <= k < |s| && !(lo <= k < hi) ==> s[k] == t[k]
  }

  /** Finishing the child `p + [i]` extends what is written below `p` from
      the first i children to the first i + 1, and the cells changed since
      `start` from the blocks of those i children to the blocks of i + 1. */
  lemma IterationDone<V>(shape: seq<nat>, f: seq<int> -> V, p: seq<int>, i: int,
                         start: seq<V>, before: seq<V>, after: seq<V>)
    requires InBounds(shape, p) && |p| < |shape| && 0 <= i < shape[|p|]
    requires WrittenBelow(shape, before, f, p, i)
    requires SameOutside(before, start, Offset(shape, p),
                         Offset(shape, p) + i * BlockSize(shape, |p| + 1))
    requires Written(shape, after, f, p + [i])
    requires SameOutside(after, before, Offset(shape, p + [i]),
                         Offset(shape, p + [i]) + BlockSize(shape, |p| + 1))
    ensures WrittenBelow(shape, after, f, p, i + 1)
    ensures SameOutside(after, start, Offset(shape, p),
                        Offset(shape, p) + (i + 1) * BlockSize(shape, |p| + 1))
  {
    var b := BlockSize(shape, |p| + 1);
    ChildOffset(shape, p, i);
    Distrib(i, 1, b);
    MulMono(0, i, b);
    GrowWritten(shape, f, p, i, before, after);
    GrowSame(start, before, after, Offset(shape, p), i * b, b);
  }

  /** The first i children stay written while child i is filled, because
      their cells lie before child i's block. */
  lemma GrowWritten<V>(shape: seq<nat>, f: seq<int> -> V, p: seq<int>, i: int,
                       before: seq<V>, after: seq<V>)
    requires InBounds(shape, p) && |p| < |shape| && 0 <= i < shape[|p|]
    requires WrittenBelow(shape, before, f, p, i)
    requires Written(shape, after, f, p + [i])
    requires SameOutside(after, before, Offset(shape, p + [i]),
                         Offset(shape, p + [i]) + BlockSize(shape, |p| + 1))
    requires Offset(shape, p + [i]) == Offset(shape, p) + i * BlockSize(shape, |p| + 1)
    ensures WrittenBelow(shape, after, f, p, i + 1)
  {
    var d := |p|;
    forall c: seq<int> | InBounds(shape, c) && |c| == |shape| && p <= c && c[d] < i + 1
      ensures after[Offset(shape, c)] == f(c)
    {
      if c[d] == i {
        assert c[..d + 1] == p + [i];
      } else {
        EarlierSibling(shape, p, c, i);
        CellInBlock(shape, c, |shape|);
        assert before[Offset(shape, c)] == f(c);
      }
    }
  }

  /** Changes confined to [o, o + m) and then to the next b positions are
      confined to [o, o + m + b). */
  lemma GrowSame<V>(start: seq<V>, before: seq<V>, after: seq<V>, o: int, m: int, b: int)
    requires 0 <= m && 0 <= b
    requires SameOutside(before, start, o, o + m)
    requires SameOutside(after, before, o + m, o + m + b)
    ensures SameOutside(after, start, o, o + (m + b))
  {
  }

  /** A full coordinate tuple is the only one extending itself, so writing
      its one cell writes everything below it. */
  lemma LeafDone<V>(shape: seq<nat>, f: seq<int> -> V, c: seq<int>, before: seq<V>)
    requires InBounds(shape, c) && |c| == |shape| && |before| == Product(shape)
    ensures Written(shape, before[Offset(shape, c) := f(c)], f, c)
    ensures SameOutside(before[Offset(shape, c) := f(c)], before, Offset(shape, c),
                        Offset(shape, c) + BlockSize(shape, |c|))
  {
    BlockSizeEnd(shape);
    var after := before[Offset(shape, c) := f(c)];
    forall c': seq<int> | InBounds(shape, c') && |c'| == |shape| && c <= c'
      ensures after[Offset(shape, c')] == f(c')
    {
      assert c' == c;
    }
  }

  /** Extending an in-bounds prefix by a coordinate within the next axis
      stays in bounds. */
  lemma ChildInBounds(shape: seq<nat>, p: seq<int>, i: int)
    requires InBounds(shape, p) && |p| < |shape| && 0 <= i < shape[|p|]
    ensures InBounds(shape, p + [i]) && |p + [i]| == |p| + 1
  {
  }

  /** Once every child of `p` is done, all of `p`'s block is written, the
      trace is the whole walk under `p` and the changes stay in `p`'s block. */
  lemma LoopExit<V>(shape: seq<nat>, f: seq<int> -> V, p: seq<int>,
                    start: seq<V>, cells: seq<V>, written: seq<seq<int>>)
    requires InBounds(shape, p) && |p| < |shape|
    requires written == Upto(shape, p, shape[|p|])
    requires WrittenBelow(shape, cells, f, p, shape[|p|])
    requires SameOutside(cells, start, Offset(shape, p),
                         Offset(shape, p) + shape[|p|] * BlockSize(shape, |p| + 1))
    ensures written == Enum(shape, p)
    ensures Written(shape, cells, f, p)
    ensures SameOutside(cells, start, Offset(shape, p), Offset(shape, p) + BlockSize(shape, |p|))
  {
    BlockSizeStep(shape, |p|);
  }

  /** `fill_array(array, function, index, depth)`: writes `f(c)` into the
      cell of every full coordinate tuple `c` that extends `index`, visiting
      them in the order of `Enum` (returned as `written`, one `f` call per
      entry), and leaves every cell outside `index`'s block as it was. */
  method FillArray<V>(a: array<V>, shape: seq<nat>, f: seq<int> -> V,
                      index: seq<int> := [], depth: nat := 0)
    returns (ghost written: seq<seq<int>>)
    requires a.Length == Product(shape)
    requires depth < |shape| && |index| == depth && InBounds(shape, index)
    modifies a
    ensures written == Enum(shape, index)
    ensures Written(shape, a[..], f, index)
    ensures SameOutside(a[..], old(a[..]), Offset(shape, index),
                        Offset(shape, index) + BlockSize(shape, depth))
    decreases |shape| - depth
  {
    ghost var o := Offset(shape, index);
    ghost var b := BlockSize(shape, depth + 1);
    written := [];
    var i := 0;
    while i < shape[depth]
      invariant 0 <= i <= shape[depth]
      invariant written == Upto(shape, index, i)
      invariant WrittenBelow(shape, a[..], f, index, i)
      invariant SameOutside(a[..], old(a[..]), o, o + i * b)
    {
      var child := index + [i];
      ChildInBounds(shape, index, i);
      UptoStep(shape, index, i);
      ghost var before := a[..];
      if depth + 1 < |shape| {
        ghost var w := FillArray(a, shape, f, child, depth + 1);
        written := written + w;
      } else {
        LeafDone(shape, f, child, before);
        a[Offset(shape, child)] := f(child);
        assert a[..] == before[Offset(shape, child) := f(child)];
        written := written + [child];
      }
      IterationDone(shape, f, index, i, old(a[..]), before, a[..]);
      i := i + 1;
    }
    LoopExit(shape, f, index, old(a[..]), a[..], written);
  }
}
