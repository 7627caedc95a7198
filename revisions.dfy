/** How the two revisions of subscription relate: OnlineArray only added
    the partial-tuple case; every other subscription behaves as before. */
module Revisions {
  import opened Views
  import OnlineArray
  import OnlineMatrix

  /** The revisions give the same result exactly when the index is not a
      tuple shorter than the open axes. */
  lemma AgreeExceptShortTuples<V>(v: View<V>, idx: Index)
    ensures OnlineArray.Get(v, idx) == OnlineMatrix.Get(v, idx)
        <==> !(idx.Tup? && |idx.t| < v.dims)
  {
    if idx.Scalar? && v.dims > 1 {
      assert OnlineArray.Get(v, idx).view == OnlineMatrix.Get(v, idx).view;
    }
  }

  /** Scalar chains, the only subscription the older revision narrows by,
      are the same in both. */
  lemma {:induction false} ChainsAgree<V>(v: View<V>, cs: seq<int>)
    requires |cs| <= v.dims
    ensures OnlineArray.Chain(v, cs) == OnlineMatrix.Chain(v, cs)
    decreases |cs|
  {
    if |cs| > 0 {
      AgreeExceptShortTuples(v, Scalar(cs[0]));
      if |cs| > 1 {
        ChainsAgree(OnlineArray.Get(v, Scalar(cs[0])).view, cs[1..]);
      }
    }
  }
}
