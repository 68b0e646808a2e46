/** The linear scans the rental ledger performs over its lists. */
module Search {
  import opened Wrappers

  /** Index of the first element satisfying `p`, as an early-exit `for` loop
      that `break`s (or `return`s) on the first hit finds it. */
  function FindFirst<T>(s: seq<T>, p: T -> bool): (r: Option<nat>)
    ensures r.Some? ==> r.value < |s| && p(s[r.value])
    ensures r.Some? ==> forall j :: 0 <= j < r.value ==> !p(s[j])
    ensures r.None? <==> forall j :: 0 <= j < |s| ==> !p(s[j])
  {
    if |s| == 0 then None
    else if p(s[0]) then Some(0)
    else match FindFirst(s[1..], p)
      case None => None
      case Some(i) => Some(i + 1)
  }

  /** Ascending indices of every element satisfying `p`, in list order, as a
      `for` loop that reports each hit finds them. */
  function IndicesWhere<T>(s: seq<T>, p: T -> bool): (r: seq<nat>)
    ensures forall k :: 0 <= k < |r| ==> r[k] < |s| && p(s[r[k]])
    ensures forall i :: 0 <= i < |s| && p(s[i]) ==> i in r
    ensures forall k, l :: 0 <= k < l < |r| ==> r[k] < r[l]
  {
    if |s| == 0 then []
    else
      var front := IndicesWhere(s[..|s| - 1], p);
      if p(s[|s| - 1]) then front + [|s| - 1] else front
  }
}
