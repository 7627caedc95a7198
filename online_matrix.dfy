/** The older revision of the lazy array (online_matrix/online_matrix.py):
    a tuple always evaluates the function, and only scalars narrow. */
module OnlineMatrix {
  import opened Views

  /** `__getitem__`. A tuple of any length is handed to the function on its
      own. A scalar gives a sub-matrix with one more fixed coordinate while
      more than one axis is open, and otherwise completes the coordinates. */
  function Get<V>(v: View<V>, idx: Index): (r: Result<V>)
    ensures idx.Tup? ==>
      (r.Val? <==> |idx.t| == v.fn.arity) && (r.Val? ==> r.value == v.fn.apply(idx.t))
    ensures idx.Scalar? && v.dims > 1 ==>
      r.Sub? && r.view.fn == v.fn && r.view.params == v.params + [idx.i]
      && r.view.dims == v.dims - 1 && r.view.shape == Drop(v.shape, 1)
    ensures idx.Scalar? && v.dims <= 1 ==>
      (r.Val? <==> |v.params| + 1 == v.fn.arity)
      && (r.Val? ==> r.value == v.fn.apply(v.params + [idx.i]))
    ensures r.Sub? <==> idx.Scalar? && v.dims > 1
    ensures r.Sub? ==> r.view.dims >= 1 && (Wellformed(v) ==> Wellformed(r.view))
  {
    match idx
    case Tup(t) => Apply(v.fn, t)
    case Scalar(i) =>
      if v.dims > 1 then Sub(View(Drop(v.shape, 1), v.params + [i], v.dims - 1, v.fn))
      else Apply(v.fn, v.params + [i])
  }

  /** `online_matrix(function, shape)`: a root matrix with nothing fixed and
      one open axis per parameter of the function. */
  function Create<V>(fn: Fn<V>, shape: seq<nat> := []): (r: View<V>)
    ensures r.params == [] && r.dims == fn.arity && r.shape == shape && r.fn == fn
    ensures Wellformed(r)
  {
    View(shape, [], fn.arity, fn)
  }

  /** Nested-list style subscription `m[c0][c1]...[ck]` of this revision. */
  function Chain<V>(v: View<V>, cs: seq<int>): (r: Result<V>)
    requires |cs| <= v.dims
    ensures |cs| < v.dims ==>
      r.Sub? && r.view.fn == v.fn && r.view.params == v.params + cs
      && r.view.dims == v.dims - |cs| && r.view.shape == Drop(v.shape, |cs|)
      && (Wellformed(v) ==> Wellformed(r.view))
    ensures Wellformed(v) && 1 <= |cs| == v.dims ==> r == Val(v.fn.apply(v.params + cs))
    decreases |cs|
  {
    if |cs| == 0 then
      assert Drop(v.shape, 0) == v.shape;
      Sub(v)
    else
      var r := Get(v, Scalar(cs[0]));
      if |cs| == 1 then
        assert cs == [cs[0]];
        r
      else
        var rest := Chain(r.view, cs[1..]);
        assert v.params + [cs[0]] + cs[1..] == v.params + cs;
        assert Drop(Drop(v.shape, 1), |cs| - 1) == Drop(v.shape, |cs|) by {
          if |cs| <= |v.shape| {
            assert v.shape[1..][|cs| - 1..] == v.shape[|cs|..];
          }
        }
        rest
  }

  /** On a root matrix, scalars down to the last axis and one full tuple
      agree, and both evaluate the function there. */
  lemma RootChainEqualsTuple<V>(fn: Fn<V>, shape: seq<nat>, cs: seq<int>)
    requires 1 <= |cs| == fn.arity
    ensures Chain(Create(fn, shape), cs) == Val(fn.apply(cs))
    ensures Get(Create(fn, shape), Tup(cs)) == Val(fn.apply(cs))
  {
    assert [] + cs == cs;
  }

  /** A tuple succeeds exactly when it supplies every parameter of the
      function, and it gives the same result at any sub-matrix as at the
      root matrix of the same function and shape: the coordinates fixed so
      far play no part. */
  lemma TupleIgnoresPosition<V>(v: View<V>, t: seq<int>)
    ensures Get(v, Tup(t)).Val? <==> |t| == v.fn.arity
    ensures Get(v, Tup(t)) == Get(Create(v.fn, v.shape), Tup(t))
  {
  }
}
