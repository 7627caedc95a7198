/** The current revision of the lazy array (online_array/online_array.py):
    subscription either narrows the array to a sub-array that remembers the
    coordinates fixed so far, or evaluates the coordinate function. */
module OnlineArray {
  import opened Views

  /** `_make_sub_array`: a new array positioned below `v` by the extra
      coordinates `p`; it shares `v`'s function. */
  function MakeSubArray<V>(v: View<V>, p: seq<int>): (r: View<V>)
    requires |p| <= v.dims
    ensures r.fn == v.fn
    ensures |r.params| == |v.params| + |p|
    ensures r.params[..|v.params|] == v.params && r.params[|v.params|..] == p
    ensures r.dims + |p| == v.dims
    ensures |r.shape| == if |p| <= |v.shape| then |v.shape| - |p| else 0
    ensures forall k :: 0 <= k < |r.shape| ==> r.shape[k] == v.shape[|p| + k]
    ensures Wellformed(v) ==> Wellformed(r)
  {
    View(Drop(v.shape, |p|), v.params + p, v.dims - |p|, v.fn)
  }

  /** `__getitem__`. A tuple shorter than the open axes gives a sub-array;
      any other tuple is handed to the function on its own, WITHOUT the
      coordinates already fixed. A scalar gives a sub-array while more
      than one axis is open, and otherwise completes the coordinates. */
  function Get<V>(v: View<V>, idx: Index): (r: Result<V>)
    ensures idx.Tup? && |idx.t| < v.dims ==>
      r.Sub? && r.view.fn == v.fn && r.view.params == v.params + idx.t
      && r.view.dims == v.dims - |idx.t| && r.view.shape == Drop(v.shape, |idx.t|)
    ensures idx.Tup? && |idx.t| >= v.dims ==>
      (r.Val? <==> |idx.t| == v.fn.arity) && (r.Val? ==> r.value == v.fn.apply(idx.t))
    ensures idx.Scalar? && v.dims > 1 ==>
      r.Sub? && r.view.fn == v.fn && r.view.params == v.params + [idx.i]
      && r.view.dims == v.dims - 1 && r.view.shape == Drop(v.shape, 1)
    ensures idx.Scalar? && v.dims <= 1 ==>
      (r.Val? <==> |v.params| + 1 == v.fn.arity)
      && (r.Val? ==> r.value == v.fn.apply(v.params + [idx.i]))
    ensures r.Sub? <==> (idx.Tup? && |idx.t| < v.dims) || (idx.Scalar? && v.dims > 1)
    ensures r.Sub? ==> r.view.dims >= 1 && (Wellformed(v) ==> Wellformed(r.view))
  {
    match idx
    case Tup(t) =>
      if |t| < v.dims then Sub(MakeSubArray(v, t)) else Apply(v.fn, t)
    case Scalar(i) =>
      if v.dims > 1 then Sub(MakeSubArray(v, [i])) else Apply(v.fn, v.params + [i])
  }

  /** `online_array(function, shape)`: a root array with nothing fixed and
      one open axis per parameter of the function. */
  function Create<V>(fn: Fn<V>, shape: seq<nat> := []): (r: View<V>)
    ensures r.params == [] && r.dims == fn.arity && r.shape == shape && r.fn == fn
    ensures Wellformed(r)
  {
    View(shape, [], fn.arity, fn)
  }

  /** Nested-list style subscription `v[c0][c1]...[ck]`, one scalar at a
      time. Every step but the last yields a sub-array, so the chain is
      defined for up to `v.dims` coordinates. */
  function Chain<V>(v: View<V>, cs: seq<int>): (r: Result<V>)
    requires |cs| <= v.dims
    ensures |cs| < v.dims ==>
      r.Sub? && r.view.fn == v.fn && r.view.params == v.params + cs
      && r.view.dims == v.dims - |cs| && (Wellformed(v) ==> Wellformed(r.view))
    ensures Wellformed(v) && 1 <= |cs| == v.dims ==> r == Val(v.fn.apply(v.params + cs))
    decreases |cs|
  {
    if |cs| == 0 then Sub(v)
    else
      var r := Get(v, Scalar(cs[0]));
      if |cs| == 1 then
        assert cs == [cs[0]];
        r
      else
        var rest := Chain(r.view, cs[1..]);
        assert v.params + [cs[0]] + cs[1..] == v.params + cs;
        rest
  }

  /** On a root array, nested-list and numpy style subscription by a full
      coordinate tuple agree, and both evaluate the function there. */
  lemma RootChainEqualsTuple<V>(fn: Fn<V>, shape: seq<nat>, cs: seq<int>)
    requires 1 <= |cs| == fn.arity
    ensures Chain(Create(fn, shape), cs) == Val(fn.apply(cs))
    ensures Get(Create(fn, shape), Tup(cs)) == Val(fn.apply(cs))
  {
    assert [] + cs == cs;
  }

  /** A partial tuple followed by scalars reaches the same value as scalars
      alone, on any well-formed array. */
  lemma PartialTupleThenChain<V>(v: View<V>, p: seq<int>, q: seq<int>)
    requires Wellformed(v) && |p| < v.dims && 1 <= |q| && |p| + |q| == v.dims
    ensures Get(v, Tup(p)).Sub?
    ensures Chain(Get(v, Tup(p)).view, q) == Chain(v, p + q)
    ensures Chain(v, p + q) == Val(v.fn.apply(v.params + p + q))
  {
    assert v.params + p + q == v.params + (p + q);
  }

  /** A full-length tuple succeeds exactly on a root array: below the root
      the fixed coordinates are dropped and the argument count is wrong. */
  lemma FullTupleNeedsRoot<V>(v: View<V>, t: seq<int>)
    requires Wellformed(v) && |t| == v.dims
    ensures Get(v, Tup(t)).Val? <==> v.params == []
    ensures Get(v, Tup(t)).Val? ==> Get(v, Tup(t)).value == v.fn.apply(v.params + t)
  {
    assert v.params == [] ==> v.params + t == t;
  }

  /** The last open axis of a well-formed array always completes the
      coordinates: a scalar there never raises. */
  lemma ScalarOnLastAxis<V>(v: View<V>, i: int)
    requires Wellformed(v) && v.dims == 1
    ensures Get(v, Scalar(i)) == Val(v.fn.apply(v.params + [i]))
  {
  }

  /** The full-tuple case with the fixed coordinates put in front, as the
      nested-list case does; the other cases are those of `Get`. */
  function GetWithPrefix<V>(v: View<V>, idx: Index): (r: Result<V>)
    ensures idx.Scalar? || |idx.t| < v.dims ==> r == Get(v, idx)
    ensures idx.Tup? && |idx.t| >= v.dims ==>
      (r.Val? <==> |v.params| + |idx.t| == v.fn.arity)
      && (r.Val? ==> r.value == v.fn.apply(v.params + idx.t))
    ensures r.Sub? <==> (idx.Tup? && |idx.t| < v.dims) || (idx.Scalar? && v.dims > 1)
  {
    match idx
    case Tup(t) =>
      if |t| < v.dims then Sub(MakeSubArray(v, t)) else Apply(v.fn, v.params + t)
    case Scalar(i) => Get(v, idx)
  }

  /** With the prefix restored, numpy style and nested-list style
      subscription agree on every well-formed array, root or not. */
  lemma {:induction false} TupleEqualsChain<V>(v: View<V>, cs: seq<int>)
    requires Wellformed(v) && 1 <= |cs| <= v.dims
    ensures GetWithPrefix(v, Tup(cs)) == Chain(v, cs)
  {
    if |cs| < v.dims {
      var s := MakeSubArray(v, cs);
      assert s.params == v.params + cs;
      assert s.shape == Drop(v.shape, |cs|);
      assert s == Chain(v, cs).view by {
        ChainShape(v, cs);
      }
    }
  }

  /** The sub-array reached by a chain is the one a single tuple of the
      same coordinates reaches. */
  lemma {:induction false} ChainShape<V>(v: View<V>, cs: seq<int>)
    requires |cs| < v.dims
    ensures Chain(v, cs).view == MakeSubArray(v, cs)
    decreases |cs|
  {
    if |cs| == 0 {
      assert v.params + cs == v.params;
      assert Drop(v.shape, 0) == v.shape;
    } else {
      var w := Get(v, Scalar(cs[0])).view;
      if |cs| > 1 {
        ChainShape(w, cs[1..]);
        DropDrop(v.shape, 1, |cs| - 1);
        assert v.params + [cs[0]] + cs[1..] == v.params + cs;
      }
    }
  }

  /** Python slicing composes: `s[m:][n:] == s[m+n:]`. */
  lemma DropDrop<T>(s: seq<T>, m: nat, n: nat)
    ensures Drop(Drop(s, m), n) == Drop(s, m + n)
  {
    if m + n <= |s| {
      assert s[m..][n..] == s[m + n..];
    }
  }
}
