/** The one LINQ operator the service uses. */
module Linq {

  /**
   Enumerable.Any(source, predicate): walks the sequence front to back and
   stops at the first element that `matches` accepts. It is true exactly when
   some element is accepted.
   */
  function Any<T>(source: seq<T>, matches: T -> bool): (found: bool)
    ensures found <==> exists i :: 0 <= i < |source| && matches(source[i])
  {
    if source == [] then false
    else if matches(source[0]) then true
    else
      assert forall i :: 1 <= i < |source| ==> source[i] == source[1..][i - 1];
      Any(source[1..], matches)
  }
}
