/** Sequence reversal: the functional reference that every reversal in the
    model is measured against. */
module Seqs {

  /** The reverse of `s`, built by moving the first element to the end. */
  function Rev<T>(s: seq<T>): (r: seq<T>)
    ensures |r| == |s|
    ensures forall k :: 0 <= k < |s| ==> r[k] == s[|s| - 1 - k]
  {
    if s == [] then [] else Rev(s[1..]) + [s[0]]
  }

  /** Reversing twice gives back the original sequence. */
  lemma RevRev<T>(s: seq<T>)
    ensures Rev(Rev(s)) == s
  {
    assert forall k :: 0 <= k < |s| ==> Rev(Rev(s))[k] == s[k];
  }
}
