/** What holds of slices and concatenations of byte sequences, and needs saying. */
module Slices {
  import opened Lz4Block

  lemma Regroup(a: seq<byte>, b: seq<byte>, c: seq<byte>)
    ensures a + (b + c) == a + b + c
  {
  }

  /** What is left of a sequence from position i on. */
  lemma Rest<T>(s: seq<T>, i: nat)
    requires i < |s|
    ensures s[i..][0] == s[i] && s[i..][1..] == s[i + 1..]
  {
  }

  lemma SliceJoin(s: seq<byte>, a: nat, b: nat, c: nat)
    requires a <= b <= c <= |s|
    ensures s[a..b] + s[b..c] == s[a..c]
  {
  }

  lemma SliceOfSlice(s: seq<byte>, lo: nat, hi: nat, i: nat, j: nat, a: nat, b: nat)
    requires lo <= hi <= |s| && i <= j <= hi - lo && a == lo + i && b == lo + j
    ensures s[lo..hi][i..j] == s[a..b]
    ensures b == hi ==> s[lo..hi][i..] == s[a..b]
  {
    var t, u := s[lo..hi][i..j], s[a..b];
    forall k | 0 <= k < |t| ensures t[k] == u[k] {
      assert t[k] == s[lo..hi][i + k] == s[lo + (i + k)];
    }
    assert t == u;
  }
}
