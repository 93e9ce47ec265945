/** Small facts about sequences, proved once so larger proofs need not rediscover them. */
module Seqs {
  lemma AppendAssoc<T>(a: seq<T>, b: seq<T>, c: seq<T>)
    ensures a + (b + c) == (a + b) + c
  {
  }

  lemma PrefixOfPrefix<T>(s: seq<T>, n: nat, c: nat)
    requires c <= n <= |s|
    ensures s[..n][..c] == s[..c]
  {
  }

  /** Adjacent slices join into one. */
  lemma SliceJoin<T>(s: seq<T>, a: nat, b: nat, c: nat)
    requires a <= b <= c <= |s|
    ensures s[a..b] + s[b..c] == s[a..c]
  {
  }

  /** A prefix followed by the next slice is the longer prefix. */
  lemma PrefixJoin<T>(s: seq<T>, b: nat, c: nat)
    requires b <= c <= |s|
    ensures s[..b] + s[b..c] == s[..c]
  {
  }
}
