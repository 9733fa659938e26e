/** Inputs of equal length that differ in one place. */
module XxApart {
  import opened Lz4Block

  /** s and t are of equal length, and differ within the n bytes at p only. */
  ghost predicate Apart(s: seq<byte>, t: seq<byte>, p: nat, n: nat) {
    |s| == |t| && p + n <= |s| && s != t && forall k | 0 <= k < |s| && !(p <= k < p + n) :: s[k] == t[k]
  }

  lemma ApartBounds(s: seq<byte>, t: seq<byte>, p: nat, n: nat)
    requires Apart(s, t, p, n)
    ensures |s| == |t| && p + n <= |s|
  {
  }

  lemma Parts(s: seq<byte>, t: seq<byte>, k: nat)
    requires k <= |s| == |t| && s[..k] == t[..k] && s[k..] == t[k..]
    ensures s == t
  {
    assert s == s[..k] + s[k..];
  }

  lemma ApartTail(s: seq<byte>, t: seq<byte>, p: nat, n: nat, k: nat)
    requires Apart(s, t, p, n) && k <= p
    ensures s[..k] == t[..k] && Apart(s[k..], t[k..], p - k, n)
  {
    var s1, t1, q := s[k..], t[k..], p - k;
    forall i | 0 <= i < |s1| && !(q <= i < q + n) ensures s1[i] == t1[i] {
      assert s[k + i] == t[k + i];
    }
    assert s[..k] == t[..k];
    if s1 == t1 { Parts(s, t, k); }
  }

  lemma ApartHead(s: seq<byte>, t: seq<byte>, p: nat, n: nat, k: nat)
    requires Apart(s, t, p, n) && p + n <= k <= |s|
    ensures s[k..] == t[k..] && Apart(s[..k], t[..k], p, n)
  {
    var s1, t1 := s[k..], t[k..];
    forall i | 0 <= i < |s1| ensures s1[i] == t1[i] {
      assert s[k + i] == t[k + i];
    }
    assert s1 == t1;
    if s[..k] == t[..k] { Parts(s, t, k); }
  }
}
