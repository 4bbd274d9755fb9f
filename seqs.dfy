/** Small helpers on sequences shared by the other modules. */
module Seqs {

  /** The last element of a non-empty sequence (std::vector::back). */
  function Last<T>(s: seq<T>): T
    requires |s| >= 1
  {
    s[|s| - 1]
  }

  /** A non-empty sequence is its prefix followed by its last element. */
  lemma PrefixSnocLast<T>(s: seq<T>)
    requires |s| >= 1
    ensures s[..|s| - 1] + [Last(s)] == s
  {
  }

  /** Concatenation is associative. */
  lemma Assoc<T>(a: seq<T>, b: seq<T>, c: seq<T>)
    ensures (a + b) + c == a + (b + c)
  {
  }

  /** Regrouping a concatenation of four sequences. */
  lemma Regroup<T>(a: seq<T>, b: seq<T>, c: seq<T>, d: seq<T>)
    ensures ((a + b) + c) + d == a + ((b + c) + d)
  {
  }
}
