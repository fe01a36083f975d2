/** Facts about sequences that the string and array proofs share. */
module SeqFacts {
  /** A non-empty sequence is its first element followed by the rest. */
  lemma HeadAndRest<T>(s: seq<T>)
    requires s != []
    ensures [s[0]] + s[1..] == s
  {
  }

  /** Appending an element that has a property to elements that all have it. */
  lemma AllAppended<T>(r: seq<T>, e: T, p: T -> bool)
    requires forall j :: 0 <= j < |r| ==> p(r[j])
    requires p(e)
    ensures forall j :: 0 <= j < |r + [e]| ==> p((r + [e])[j])
  {
  }

  /** A sequence is a prefix of itself extended. */
  lemma AppendedPrefix<T>(r: seq<T>, x: seq<T>)
    ensures (r + x)[..|r|] == r
  {
  }

  /** A prefix of a prefix is a prefix. */
  lemma PrefixOfPrefix<T>(p: seq<T>, r: seq<T>, s: seq<T>)
    requires |p| <= |r| <= |s| && p == r[..|p|] && r == s[..|r|]
    ensures p == s[..|p|]
  {
  }

  /** Concatenation is associative. */
  lemma AppendAssoc<T>(x: seq<T>, y: seq<T>, z: seq<T>)
    ensures x + (y + z) == (x + y) + z
  {
  }

  /** The element appended after x sits at index |x|, whatever follows it. */
  lemma AppendedAt<T>(x: seq<T>, e: T, z: seq<T>)
    ensures |x| < |x + [e] + z| && (x + [e] + z)[|x|] == e
  {
  }

  /** A sequence is its prefix of length k followed by the rest. */
  lemma SplitAt<T>(s: seq<T>, k: nat)
    requires k <= |s|
    ensures s[..k] + s[k..] == s
  {
  }
}
