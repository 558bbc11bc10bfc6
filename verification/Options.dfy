/** The Some/None datatype used for the null pointers of the original, and the search
    for the first element that many of its lists are walked for. */
module Options {
  datatype Option<+T> = None | Some(value: T)

  /** Index of the first element that satisfies `p`. */
  function FirstWhere<T>(s: seq<T>, p: T -> bool): (r: Option<nat>)
    ensures r.Some? ==> r.value < |s| && p(s[r.value]) && forall k :: 0 <= k < r.value ==> !p(s[k])
    ensures r.None? ==> forall k :: 0 <= k < |s| ==> !p(s[k])
  {
    if s == [] then None
    else
      match FirstWhere(s[..|s| - 1], p)
      case Some(k) => Some(k)
      case None => if p(s[|s| - 1]) then Some(|s| - 1) else None
  }

  /** The loop that looks for it. */
  method FindWhere<T>(s: seq<T>, p: T -> bool) returns (r: Option<nat>)
    ensures r == FirstWhere(s, p)
  {
    var i := 0;
    while i < |s|
      invariant i <= |s| && forall k :: 0 <= k < i ==> !p(s[k])
    {
      if p(s[i]) {
        return Some(i);
      }
      i := i + 1;
    }
    return None;
  }
}
