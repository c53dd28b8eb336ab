/** Small shared vocabulary: optional values, pass/fail outcomes and the
    "first element satisfying a predicate" search that every lookup of the
    library (std::find, std::find_if and the hand-written range-for searches)
    is an instance of. */
module Common {

  datatype Option<+T> = None | Some(value: T)

  /** The result of an operation that either completes or throws. */
  datatype Outcome<+E> = Pass | Fail(error: E)

  /** A value, or the error an operation raised instead of returning it. */
  datatype Result<+T, +E> = Ok(value: T) | Err(error: E)

  /** Index of the first element of `s` that satisfies `p`, or None. */
  function FirstIndex<T>(s: seq<T>, p: T -> bool): (r: Option<nat>)
    ensures r.Some? ==> r.value < |s| && p(s[r.value])
    ensures r.Some? ==> forall k :: 0 <= k < r.value ==> !p(s[k])
    ensures r.None? ==> forall k :: 0 <= k < |s| ==> !p(s[k])
  {
    if |s| == 0 then None
    else if p(s[0]) then Some(0)
    else match FirstIndex(s[1..], p)
      case Some(k) => Some(k + 1)
      case None => None
  }

  /** The first element of `lhs` that also occurs in `rhs` (a nested pair of
      loops comparing every `a` of `lhs` with every `b` of `rhs`). */
  function FirstCommon<T(==)>(lhs: seq<T>, rhs: seq<T>): (r: Option<T>)
    ensures r.Some? ==> r.value in lhs && r.value in rhs
    ensures r.None? <==> forall x :: x in lhs ==> x !in rhs
  {
    match FirstIndex(lhs, x => x in rhs)
    case Some(k) => Some(lhs[k])
    case None => None
  }

  predicate StartsWith(s: string, prefix: string) {
    |prefix| <= |s| && s[..|prefix|] == prefix
  }
}
