/** Binary search in ascending sequences. */
module Search {

  predicate Ascending(s: seq<nat>) {
    forall i, j | 0 <= i < j < |s| :: s[i] < s[j]
  }

  /** The position of the first element above `a`. */
  method UpperBound(s: seq<nat>, a: nat) returns (k: nat)
    requires Ascending(s)
    ensures k <= |s| && (forall i | 0 <= i < k :: s[i] <= a) && (forall i | k <= i < |s| :: a < s[i])
  {
    var lo, hi := 0, |s|;
    while lo < hi
      invariant lo <= hi <= |s|
      invariant (forall i | 0 <= i < lo :: s[i] <= a) && (forall i | hi <= i < |s| :: a < s[i])
    {
      var mid := (lo + hi) / 2;
      if s[mid] <= a {
        lo := mid + 1;
      } else {
        hi := mid;
      }
    }
    k := lo;
  }
}
