/** Values shared by both revisions of the lazy array (OnlineArray and the
    older OnlineMatrix): the coordinate function, the view record that every
    indexing step produces, the two kinds of index and the outcome of one
    indexing step. */
module Views {

  /** A caller-supplied coordinate function with positional parameters
      only, none of them defaulted. `arity` is its number of parameters
      (what the source reads by reflection), the exact number of arguments
      it accepts: Python raises a TypeError for any other count. `apply`
      maps a coordinate tuple of that length to a value. */
  datatype Fn<V> = Fn(arity: nat, apply: seq<int> -> V)

  /** One array object: the shape it was created with (carried, never
      checked), the coordinates fixed so far (`parameters`), the number of
      axes still open (`dimensions`) and the coordinate function. */
  datatype View<V> = View(shape: seq<nat>, params: seq<int>, dims: nat, fn: Fn<V>)

  /** The two index kinds the source distinguishes: a tuple (numpy style)
      or anything else, used as one integer coordinate (nested-list style). */
  datatype Index = Scalar(i: int) | Tup(t: seq<int>)

  /** What one subscription returns: a narrower array, the value computed
      by the coordinate function, or the TypeError raised when the
      function receives the wrong number of arguments. */
  datatype Result<V> = Sub(view: View<V>) | Val(value: V) | ArityError

  /** `function(*args)`: succeeds exactly when the number of arguments is
      the function's arity, and then yields the function's value. */
  function Apply<V>(fn: Fn<V>, args: seq<int>): (r: Result<V>)
    ensures r.Val? <==> |args| == fn.arity
    ensures r.Val? ==> r.value == fn.apply(args)
    ensures !r.Sub?
  {
    if |args| == fn.arity then Val(fn.apply(args)) else ArityError
  }

  /** Python's `s[n:]` for n >= 0: the entries from position n on, and the
      empty tuple when n is past the end. */
  function Drop<T>(s: seq<T>, n: nat): (r: seq<T>)
    ensures |r| == if n <= |s| then |s| - n else 0
    ensures forall k :: 0 <= k < |r| ==> r[k] == s[n + k]
  {
    if n <= |s| then s[n..] else []
  }

  /** The bookkeeping invariant of every array derived from a root: the
      fixed coordinates and the open axes together account for all the
      coordinate function's parameters. */
  predicate Wellformed<V>(v: View<V>)
  {
    |v.params| + v.dims == v.fn.arity
  }
}
