/** Slices that may reach past the end. */
module Sequences {
  /** `s[:n]` */
  function Truncate<T>(s: seq<T>, n: nat): seq<T> {
    if |s| <= n then s else s[..n]
  }

  lemma TruncateBehind<T>(a: seq<T>, b: seq<T>, n: nat)
    requires |a| <= n
    ensures Truncate(a + b, n) == a + Truncate(b, n - |a|)
  {
  }
}
