/** Searches over sequences shared by the modules of the model. */
module Seqs {
  import opened Wrappers

  /** The index of the first element that satisfies `p`, or `None` when no element does. */
  function FindFirst<T>(xs: seq<T>, p: T -> bool): (r: Option<nat>)
    ensures r.Some? ==> (r.value < |xs| && p(xs[r.value])
      && forall j :: 0 <= j < r.value ==> !p(xs[j]))
    ensures r.None? ==> forall j :: 0 <= j < |xs| ==> !p(xs[j])
    decreases |xs|
  {
    if |xs| == 0 then None
    else if p(xs[0]) then Some(0)
    else
      match FindFirst(xs[1..], p)
      case None => None
      case Some(i) => Some(i + 1)
  }
}
