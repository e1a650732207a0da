/** Optional values, the range of 32-bit words, and lists without repetition. */
module Basics {
  datatype Option<+T> = None | Some(value: T)

  const TWO32 := 0x1_0000_0000

  ghost predicate NoRepeats<T>(s: seq<T>) { forall i, j :: 0 <= i < j < |s| ==> s[i] != s[j] }

  /** A list of numbers below n without repetition has at most n elements. */
  lemma {:induction false} NoRepeatsShort(s: seq<nat>, n: nat)
    requires NoRepeats(s) && forall i :: 0 <= i < |s| ==> s[i] < n
    ensures |s| <= n
    decreases n
  {
    if s != [] {
      assert s[0] < n;
      var m := n - 1;
      if k :| 0 <= k < |s| && s[k] == m {
        NoRepeatsShort(s[..k] + s[k + 1..], m);
      } else {
        NoRepeatsShort(s, m);
      }
    }
  }
}
