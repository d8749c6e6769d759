/** Searching sequences. */
module Seqs {

  /** The first index whose element satisfies p, or the length. */
  function FirstIndex<T>(s: seq<T>, p: T -> bool): (i: nat)
    ensures i <= |s| && (i < |s| ==> p(s[i]))
    ensures forall k | 0 <= k < i :: !p(s[k])
  {
    if s == [] || p(s[0]) then 0 else 1 + FirstIndex(s[1..], p)
  }
}
