/** The copy routines of the LZ4 decoder.  They move 8, 16 or 32 bytes at a time, run past the end
    of what was asked for, and for short offsets adjust the source so that later copies stay
    aligned on the pattern; each is proved to leave the pattern of the match behind it. */
module Lz4Copy {
  import opened Lz4Block
  import opened Slices

  /** Nothing changed outside [lo, hi). */
  ghost predicate Untouched(now: seq<byte>, was: seq<byte>, lo: nat, hi: nat) {
    |now| == |was| && lo <= hi <= |was| && now[..lo] == was[..lo] && now[hi..] == was[hi..]
  }

  ghost predicate SameAt(s: seq<byte>, i: int, p: nat) {
    0 <= i - p && i < |s| && s[i] == s[i - p]
  }

  /** Every byte of [lo, hi) repeats the one p positions before it. */
  ghost predicate Periodic(s: seq<byte>, lo: nat, hi: nat, p: nat) {
    0 < p <= lo <= hi <= |s| && forall i | lo <= i < hi :: SameAt(s, i, p)
  }

  ghost predicate Zeros(s: seq<byte>, lo: nat, hi: nat) {
    lo <= hi <= |s| && forall i | lo <= i < hi :: s[i] == 0
  }

  /** [lo, hi) holds the match with this offset, or zeros when the offset is 0. */
  ghost predicate MatchRegion(s: seq<byte>, lo: nat, hi: nat, offset: nat) {
    if offset == 0 then Zeros(s, lo, hi) else Periodic(s, lo, hi, offset)
  }

  /** s with part written over it at position d. */
  ghost function Splice(s: seq<byte>, d: nat, part: seq<byte>): (r: seq<byte>)
    requires d + |part| <= |s|
    ensures |r| == |s|
  {
    s[..d] + part + s[d + |part|..]
  }

  lemma UntouchedSplice(now: seq<byte>, was: seq<byte>, lo: nat, hi: nat, d: nat, part: seq<byte>)
    requires Untouched(now, was, lo, hi) && lo <= d && d + |part| <= hi
    ensures Untouched(Splice(now, d, part), was, lo, hi)
  {
    var r := Splice(now, d, part);
    assert r[..lo] == now[..lo];
    assert r[hi..] == now[hi..];
  }

  lemma UntouchedWider(now: seq<byte>, was: seq<byte>, lo: nat, hi: nat, lo': nat, hi': nat)
    requires Untouched(now, was, lo, hi) && lo' <= lo && hi <= hi' <= |was|
    ensures Untouched(now, was, lo', hi')
  {
    assert now[..lo'] == now[..lo][..lo'] == was[..lo][..lo'];
    assert now[hi'..] == now[hi..][hi' - hi..] == was[hi..][hi' - hi..];
  }

  lemma UntouchedSame(s: seq<byte>, lo: nat, hi: nat)
    requires lo <= hi <= |s|
    ensures Untouched(s, s, lo, hi)
  {
  }

  lemma UntouchedTwice(a: seq<byte>, b: seq<byte>, c: seq<byte>, lo: nat, hi: nat)
    requires Untouched(b, a, lo, hi) && Untouched(c, b, lo, hi)
    ensures Untouched(c, a, lo, hi)
  {
  }

  /** A periodic region also repeats at multiples of its period. */
  lemma {:induction false} PeriodicTimes(s: seq<byte>, lo: nat, hi: nat, p: nat, k: nat, i: nat)
    requires Periodic(s, lo, hi, p) && k >= 1
    requires lo - p + k * p <= i < hi
    ensures 0 <= i - k * p && s[i] == s[i - k * p]
    decreases k
  {
    assert k * p == (k - 1) * p + p;
    if k > 1 {
      assert (k - 1) * p >= p by {
        assert (k - 1) * p == (k - 2) * p + p;
        assert (k - 2) * p >= 0;
      }
      assert SameAt(s, i, p);
      PeriodicTimes(s, lo, hi, p, k - 1, i - p);
    } else {
      assert SameAt(s, i, p);
    }
  }

  lemma SpliceByte(s: seq<byte>, d: nat, part: seq<byte>, i: nat)
    requires d + |part| <= |s| && i < |s|
    ensures Splice(s, d, part)[i] == if d <= i < d + |part| then part[i - d] else s[i]
  {
  }

  /** Copying n bytes from a multiple of the period back continues a periodic region. */
  lemma ExtendPeriodic(s: seq<byte>, lo: nat, d: nat, n: nat, p: nat, k: nat)
    requires Periodic(s, lo, d, p) && k >= 1 && d + n <= |s|
    requires n <= k * p && lo - p + k * p <= d
    ensures Periodic(Splice(s, d, s[d - k * p..d - k * p + n]), lo, d + n, p)
  {
    var D := k * p;
    assert D == (k - 1) * p + p;
    assert (k - 1) * p >= 0;
    var part := s[d - D..d - D + n];
    var s' := Splice(s, d, part);
    forall i | lo <= i < d + n
      ensures SameAt(s', i, p)
    {
      SpliceByte(s, d, part, i);
      SpliceByte(s, d, part, i - p);
      if i < d {
        assert SameAt(s, i, p);
      } else if i - p < d {
        if k > 1 {
          PeriodicTimes(s, lo, d, p, k - 1, i - p);
        }
      } else {
        assert SameAt(s, i - D, p);
      }
    }
  }

  lemma PeriodicPrefix(s: seq<byte>, s': seq<byte>, lo: nat, hi: nat, p: nat)
    requires Periodic(s, lo, hi, p) && |s'| == |s| && s'[..hi] == s[..hi]
    ensures Periodic(s', lo, hi, p)
  {
    forall i | lo <= i < hi
      ensures SameAt(s', i, p)
    {
      assert SameAt(s, i, p);
      assert s'[i] == s'[..hi][i] == s[..hi][i];
      assert s'[i - p] == s'[..hi][i - p] == s[..hi][i - p];
    }
  }

  lemma {:induction false} PeriodicZeros(s: seq<byte>, lo: nat, hi: nat, i: nat)
    requires Periodic(s, lo + 8, hi, 8) && Zeros(s, lo, lo + 8) && lo <= i < hi
    ensures s[i] == 0
    decreases i
  {
    if i >= lo + 8 {
      assert SameAt(s, i, 8);
      PeriodicZeros(s, lo, hi, i - 8);
    }
  }

  // ------------------------------------------------------------- memcpy

  method CopyWithin(dst: array<byte>, d: nat, s: nat, n: nat)
    requires s + n <= d && d + n <= dst.Length
    modifies dst
    ensures dst[..] == Splice(old(dst[..]), d, old(dst[..])[s..s + n])
  {
    forall i | 0 <= i < n {
      dst[d + i] := dst[s + i];
    }
  }

  method CopyIn(dst: array<byte>, d: nat, src: seq<byte>, s: nat, n: nat)
    requires s + n <= |src| && d + n <= dst.Length
    modifies dst
    ensures dst[..] == Splice(old(dst[..]), d, src[s..s + n])
  {
    forall i | 0 <= i < n {
      dst[d + i] := src[s + i];
    }
  }

  // ---------------------------------------------------- copies of literals

  /** LZ4_wildCopy8 and LZ4_wildCopy32 from the block: whole stripes, so up to a stripe past e. */
  method WildCopyIn(dst: array<byte>, op: nat, src: seq<byte>, ip: nat, e: nat, stripe: nat, ghost end: nat)
    requires stripe == 8 || stripe == 32
    requires op <= e && e + stripe <= end <= dst.Length && ip + (e - op) + stripe <= |src|
    modifies dst
    ensures Untouched(dst[..], old(dst[..]), op, end)
    ensures dst[op..e] == src[ip..ip + (e - op)]
  {
    ghost var was := dst[..];
    var d, s := op, ip;
    while true
      invariant op <= d && s - ip == d - op && (d == op || d < e + stripe)
      invariant d + stripe <= end && s + stripe <= |src|
      invariant Untouched(dst[..], was, op, end)
      invariant dst[op..d] == src[ip..s]
      decreases e + stripe - d
    {
      CopyStripe(dst, op, d, src, ip, s, stripe, end, was);
      d, s := d + stripe, s + stripe;
      if d >= e {
        break;
      }
    }
    SliceOfSlice(dst[..], op, d, 0, e - op, op, e);
    SliceOfSlice(src, ip, s, 0, e - op, ip, ip + (e - op));
  }

  method CopyStripe(dst: array<byte>, op: nat, d: nat, src: seq<byte>, ip: nat, s: nat, stripe: nat,
                    ghost end: nat, ghost was: seq<byte>)
    requires op <= d && ip <= s && s - ip == d - op && d + stripe <= end <= dst.Length && s + stripe <= |src|
    requires Untouched(dst[..], was, op, end) && dst[op..d] == src[ip..s]
    modifies dst
    ensures Untouched(dst[..], was, op, end) && dst[op..d + stripe] == src[ip..s + stripe]
  {
    ghost var before := dst[..];
    hide Untouched, Splice;
    CopyIn(dst, d, src, s, stripe);
    UntouchedSplice(before, was, op, end, d, src[s..s + stripe]);
    SpliceAppends(before, op, d, src[s..s + stripe]);
    SliceJoin(src, ip, s, s + stripe);
  }

  lemma SpliceAppends(s: seq<byte>, lo: nat, d: nat, part: seq<byte>)
    requires lo <= d && d + |part| <= |s|
    ensures Splice(s, d, part)[lo..d + |part|] == s[lo..d] + part
    ensures Splice(s, d, part)[..d] == s[..d]
  {
  }

  // ----------------------------------------------------- copies of matches

  /** LZ4_wildCopy8 inside the output, from k periods back. */
  method WildCopy8(dst: array<byte>, op: nat, match_: nat, e: nat, ghost lo: nat, ghost p: nat, ghost k: nat, ghost end: nat)
    requires match_ <= op && op - match_ == k * p && k >= 1 && 8 <= k * p && lo - p + k * p <= op
    requires op + 8 <= end && e + 7 <= end && end <= dst.Length
    requires Periodic(dst[..], lo, op, p)
    modifies dst
    ensures Untouched(dst[..], old(dst[..]), op, end)
    ensures e > op ==> Periodic(dst[..], lo, e, p)
  {
    ghost var was := dst[..];
    var d, s := op, match_;
    while true
      invariant op <= d && s <= d && d - s == k * p && d + 8 <= end
      invariant Untouched(dst[..], was, op, end)
      invariant Periodic(dst[..], lo, d, p)
      decreases e + 8 - d
    {
      ghost var before := dst[..];
      CopyWithin(dst, d, s, 8);
      UntouchedSplice(before, was, op, end, d, before[s..s + 8]);
      ExtendPeriodic(before, lo, d, 8, p, k);
      d, s := d + 8, s + 8;
      if d >= e {
        break;
      }
    }
  }

  /** LZ4_wildCopy32 inside the output: two 16-byte copies at a time, for offsets of at least 16. */
  method WildCopy32(dst: array<byte>, op: nat, match_: nat, e: nat, ghost end: nat)
    requires match_ + 16 <= op && op - match_ <= op
    requires op + 32 <= end && e + 31 <= end && end <= dst.Length
    modifies dst
    ensures Untouched(dst[..], old(dst[..]), op, end)
    ensures e > op ==> Periodic(dst[..], op, e, op - match_)
  {
    ghost var was := dst[..];
    ghost var p := op - match_;
    var d, s := op, match_;
    while true
      invariant op <= d && s <= d && d - s == p && d + 32 <= end
      invariant Untouched(dst[..], was, op, end)
      invariant Periodic(dst[..], op, d, p)
      decreases e + 32 - d
    {
      CopySixteen(dst, d, s, op, end, was);
      CopySixteen(dst, d + 16, s + 16, op, end, was);
      d, s := d + 32, s + 32;
      if d >= e {
        break;
      }
    }
  }

  method CopySixteen(dst: array<byte>, d: nat, s: nat, ghost lo: nat, ghost end: nat, ghost was: seq<byte>)
    requires s + 16 <= d && lo <= d && d + 16 <= end <= dst.Length && d - s <= lo
    requires Untouched(dst[..], was, lo, end) && Periodic(dst[..], lo, d, d - s)
    modifies dst
    ensures Untouched(dst[..], was, lo, end) && Periodic(dst[..], lo, d + 16, d - s)
  {
    ghost var before := dst[..];
    CopyWithin(dst, d, s, 16);
    UntouchedSplice(before, was, lo, end, d, before[s..s + 16]);
    ExtendPeriodic(before, lo, d, 16, d - s, 1);
  }

  const INC32TABLE: seq<nat> := [0, 1, 2, 1, 0, 4, 4, 4]
  const DEC64TABLE: seq<int> := [0, 0, 0, -1, -4, 1, 2, 3]

  /** How many periods back the second and third copies read. */
  ghost function Back4(offset: nat): nat {
    if offset == 1 then 4 else if offset <= 4 then 2 else 1
  }

  ghost function Back8(offset: nat): nat {
    if offset == 1 then 8 else if offset == 2 then 4 else if offset == 3 then 3 else if offset < 8 then 2 else 1
  }

  /** The tables move the source to a whole number of periods back: at least 4, then at least 8. */
  lemma Tables(offset: nat)
    requires 1 <= offset < 8
    ensures Back4(offset) * offset == offset + 4 - INC32TABLE[offset]
    ensures 4 <= Back4(offset) * offset <= offset + 4
    ensures Back8(offset) * offset == offset + 8 - INC32TABLE[offset] + DEC64TABLE[offset]
    ensures 8 <= Back8(offset) * offset <= offset + 8
  {
    if offset == 1 {
    } else if offset == 2 {
    } else if offset == 3 {
    } else if offset == 4 {
    } else if offset == 5 {
    } else if offset == 6 {
    } else {
    }
  }

  /** The first four bytes of a short-offset match, one at a time. */
  method FirstFour(dst: array<byte>, op: nat, match_: nat)
    requires op - 8 < match_ <= op && op + 4 <= dst.Length
    modifies dst
    ensures Untouched(dst[..], old(dst[..]), op, op + 4)
    ensures MatchRegion(dst[..], op, op + 4, op - match_)
  {
    ghost var was := dst[..];
    dst[op], dst[op + 1], dst[op + 2], dst[op + 3] := 0, 0, 0, 0;
    dst[op] := dst[match_];
    dst[op + 1] := dst[match_ + 1];
    dst[op + 2] := dst[match_ + 2];
    dst[op + 3] := dst[match_ + 3];
    assert dst[..op] == was[..op];
    assert dst[op + 4..] == was[op + 4..];
    ghost var s, p := dst[..], op - match_;
    if p > 0 {
      assert SameAt(s, op, p) && SameAt(s, op + 1, p) && SameAt(s, op + 2, p) && SameAt(s, op + 3, p);
    }
  }

  /** Where the source of the rest of a match stands after its first eight bytes: k periods back.
      A zero offset behaves as a run of zeros with period 8. */
  ghost predicate Continues(s: seq<byte>, op: nat, offset: nat, next: nat, lo: nat, p: nat, k: nat) {
    && next <= op + 8 && op + 8 - next == k * p && k >= 1 && 8 <= k * p && lo - p + k * p <= op + 8
    && Periodic(s, lo, op + 8, p)
    && (if offset == 0 then lo == op + 8 && p == 8 && Zeros(s, op, op + 8) else lo == op && p == offset)
  }

  /** The first eight bytes of a match; for short offsets the source is then moved so that the
      distance becomes a whole number of periods. */
  method FirstEight(dst: array<byte>, op: nat, match_: nat, ghost end: nat)
    returns (next: nat, ghost lo: nat, ghost p: nat, ghost k: nat)
    requires match_ <= op && op + 8 <= end <= dst.Length && op - match_ <= op
    modifies dst
    ensures Untouched(dst[..], old(dst[..]), op, end)
    ensures Continues(dst[..], op, op - match_, next, lo, p, k)
  {
    ghost var was := dst[..];
    if op - match_ < 8 {
      next, lo, p, k := FirstEightShort(dst, op, match_, end);
    } else {
      CopyWithin(dst, op, match_, 8);
      UntouchedSplice(was, was, op, end, op, was[match_..match_ + 8]);
      ExtendPeriodic(was, op, op, 8, op - match_, 1);
      next := match_ + 8;
      lo, p, k := op, op - match_, 1;
    }
  }

  method FirstEightShort(dst: array<byte>, op: nat, match_: nat, ghost end: nat)
    returns (next: nat, ghost lo: nat, ghost p: nat, ghost k: nat)
    requires op - 8 < match_ <= op && op + 8 <= end <= dst.Length && op - match_ <= op
    modifies dst
    ensures Untouched(dst[..], old(dst[..]), op, end)
    ensures Continues(dst[..], op, op - match_, next, lo, p, k)
  {
    ghost var was := dst[..];
    var offset := op - match_;
    FirstFour(dst, op, match_);
    ghost var four := dst[..];
    hide Continues, Untouched, MatchRegion, Splice;
    var at, from := op + 4, match_ + INC32TABLE[offset];
    if offset > 0 {
      Tables(offset);
    }
    CopyWithin(dst, at, from, 4);
    next := from - DEC64TABLE[offset];
    lo, p, k := ShortCopied(four, was, op, at, offset, from, next, end);
  }

  lemma ShortCopied(four: seq<byte>, was: seq<byte>, op: nat, at: nat, offset: nat, from: nat, next: nat, end: nat) returns (lo: nat, p: nat, k: nat)
    requires offset < 8 && offset <= op && at == op + 4 && op + 8 <= end <= |four| == |was| && Untouched(four, was, op, at)
    requires from == op - offset + INC32TABLE[offset] && next == from - DEC64TABLE[offset]
    requires MatchRegion(four, op, at, offset) && from + 4 <= at
    ensures Untouched(Splice(four, at, four[from..from + 4]), was, op, end)
    ensures Continues(Splice(four, at, four[from..from + 4]), op, offset, next, lo, p, k)
  {
    hide Continues, Untouched, MatchRegion, Splice;
    UntouchedWider(four, was, op, at, op, end);
    UntouchedSplice(four, was, op, end, at, four[from..from + 4]);
    lo, p, k := ShortContinues(four, op, offset, from, next);
  }

  lemma ShortContinues(four: seq<byte>, op: nat, offset: nat, from: nat, next: nat) returns (lo: nat, p: nat, k: nat)
    requires offset < 8 && offset <= op && op + 8 <= |four|
    requires from == op - offset + INC32TABLE[offset] && next == from - DEC64TABLE[offset]
    requires MatchRegion(four, op, op + 4, offset) && from + 4 <= op + 4
    ensures Continues(Splice(four, op + 4, four[from..from + 4]), op, offset, next, lo, p, k)
  {
    if offset == 0 {
      ZerosSplice(four, op);
      lo, p, k := op + 8, 8, 1;
    } else {
      Tables(offset);
      ExtendPeriodic(four, op, op + 4, 4, offset, Back4(offset));
      lo, p, k := op, offset, Back8(offset);
    }
  }

  lemma ZerosSplice(s: seq<byte>, op: nat)
    requires Zeros(s, op, op + 4) && op + 8 <= |s|
    ensures Zeros(Splice(s, op + 4, s[op..op + 4]), op, op + 8)
  {
  }

  /** Whatever continues the period after the first eight bytes completes the match. */
  lemma RegionComplete(now: seq<byte>, mid: seq<byte>, op: nat, offset: nat, next: nat, lo: nat, p: nat, k: nat, e: nat)
    requires Continues(mid, op, offset, next, lo, p, k)
    requires op + 8 <= e <= |now| && now[..op + 8] == mid[..op + 8] && |now| == |mid|
    requires Periodic(now, lo, e, p)
    ensures MatchRegion(now, op, e, offset)
  {
    if offset == 0 {
      forall i | op <= i < op + 8
        ensures now[i] == 0
      {
        assert now[i] == now[..op + 8][i] == mid[..op + 8][i] == mid[i];
      }
      forall i | op <= i < e
        ensures now[i] == 0
      {
        PeriodicZeros(now, op, e, i);
      }
    }
  }

  lemma RegionShrinks(s: seq<byte>, op: nat, offset: nat, e: nat, e': nat)
    requires MatchRegion(s, op, e, offset) && op <= e' <= e
    ensures MatchRegion(s, op, e', offset)
  {
  }

  lemma RegionKept(now: seq<byte>, mid: seq<byte>, op: nat, offset: nat, e: nat)
    requires MatchRegion(mid, op, e, offset) && |now| == |mid| && now[..e] == mid[..e]
    ensures MatchRegion(now, op, e, offset)
  {
    if offset == 0 {
      forall i | op <= i < e
        ensures now[i] == 0
      {
        assert now[i] == now[..e][i] == mid[..e][i];
      }
    } else {
      PeriodicPrefix(mid, now, op, e, offset);
    }
  }

  lemma RegionOfContinues(s: seq<byte>, op: nat, offset: nat, next: nat, lo: nat, p: nat, k: nat)
    requires Continues(s, op, offset, next, lo, p, k)
    ensures MatchRegion(s, op, op + 8, offset)
  {
  }

  /** LZ4_memcpy_using_offset_base, for offsets below 16 other than 1, 2 and 4. */
  method CopyUsingOffsetBase(dst: array<byte>, op: nat, match_: nat, e: nat, ghost end: nat)
    requires match_ <= op && op - match_ <= op
    requires op + 16 <= end && op <= e && e + 8 <= end <= dst.Length
    modifies dst
    ensures Untouched(dst[..], old(dst[..]), op, end)
    ensures MatchRegion(dst[..], op, e, op - match_)
  {
    ghost var was := dst[..];
    ghost var offset := op - match_;
    ghost var lo, p, k;
    var next;
    next, lo, p, k := FirstEight(dst, op, match_, end);
    ghost var mid := dst[..];
    hide Periodic, Zeros;
    WildCopy8(dst, op + 8, next, e, lo, p, k, end);
    ghost var now := dst[..];
    assert now[..op + 8] == mid[..op + 8];
    UntouchedWider(now, mid, op + 8, end, op, end);
    UntouchedTwice(was, mid, now, op, end);
    if e > op + 8 {
      RegionComplete(now, mid, op, offset, next, lo, p, k, e);
    } else {
      RegionOfContinues(mid, op, offset, next, lo, p, k);
      RegionKept(now, mid, op, offset, op + 8);
      RegionShrinks(now, op, offset, op + 8, e);
    }
  }

  /** The eight bytes that LZ4_memcpy_using_offset repeats for offsets 1, 2 and 4. */
  function Pattern(s: seq<byte>, match_: nat, offset: nat): (v: seq<byte>)
    requires (offset == 1 || offset == 2 || offset == 4) && match_ + offset <= |s|
    ensures |v| == 8
  {
    var a, b, c, d := s[match_], s[match_ + 1 % offset], s[match_ + 2 % offset], s[match_ + 3 % offset];
    [a, b, c, d, a, b, c, d]
  }

  lemma PatternPeriodic(s: seq<byte>, op: nat, offset: nat)
    requires (offset == 1 || offset == 2 || offset == 4) && offset <= op && op + 8 <= |s|
    ensures Periodic(Splice(s, op, Pattern(s, op - offset, offset)), op, op + 8, offset)
    ensures Splice(s, op, Pattern(s, op - offset, offset))[op..op + 8] == Pattern(s, op - offset, offset)
  {
    var v := Pattern(s, op - offset, offset);
    var r := Splice(s, op, v);
    forall i | op <= i < op + 8
      ensures SameAt(r, i, offset)
    {
      SpliceByte(s, op, v, i);
      SpliceByte(s, op, v, i - offset);
    }
  }

  /** LZ4_memcpy_using_offset: matches of the fast loop with an offset below 16. */
  method CopyUsingOffset(dst: array<byte>, op: nat, match_: nat, e: nat, ghost end: nat)
    requires match_ <= op && op - match_ <= op && op - match_ < 16
    requires op + 16 <= end && op <= e && e + 8 <= end <= dst.Length
    modifies dst
    ensures Untouched(dst[..], old(dst[..]), op, end)
    ensures MatchRegion(dst[..], op, e, op - match_)
  {
    var offset := op - match_;
    if offset == 1 || offset == 2 || offset == 4 {
      CopyPattern(dst, op, offset, e, end);
    } else {
      CopyUsingOffsetBase(dst, op, match_, e, end);
    }
  }

  method CopyPattern(dst: array<byte>, op: nat, offset: nat, e: nat, ghost end: nat)
    requires (offset == 1 || offset == 2 || offset == 4) && offset <= op
    requires op + 8 <= end && op <= e && e + 8 <= end <= dst.Length
    modifies dst
    ensures Untouched(dst[..], old(dst[..]), op, end)
    ensures Periodic(dst[..], op, e, offset)
  {
    ghost var was := dst[..];
    var v := Pattern(dst[..], op - offset, offset);
    CopyIn(dst, op, v, 0, 8);
    assert v[0..8] == v;
    UntouchedSplice(was, was, op, end, op, v);
    PatternPeriodic(was, op, offset);
    var d := op + 8;
    while d < e
      invariant op + 8 <= d <= end
      invariant Untouched(dst[..], was, op, end)
      invariant PatternFilled(dst[..], op, d, offset, v)
    {
      PatternStep(dst, op, offset, d, v, end, was);
      d := d + 8;
    }
  }

  ghost predicate PatternFilled(s: seq<byte>, op: nat, d: nat, offset: nat, v: seq<byte>) {
    8 <= d && Periodic(s, op, d, offset) && s[d - 8..d] == v
  }

  method PatternStep(dst: array<byte>, op: nat, offset: nat, d: nat, v: seq<byte>, ghost end: nat, ghost was: seq<byte>)
    requires (offset == 1 || offset == 2 || offset == 4) && |v| == 8
    requires op + 8 <= d && d + 8 <= end <= dst.Length
    requires Untouched(dst[..], was, op, end) && PatternFilled(dst[..], op, d, offset, v)
    modifies dst
    ensures Untouched(dst[..], was, op, end) && PatternFilled(dst[..], op, d + 8, offset, v)
  {
    ghost var before := dst[..];
    hide Untouched;
    CopyIn(dst, d, v, 0, 8);
    assert v[0..8] == v;
    UntouchedSplice(before, was, op, end, d, v);
    assert (8 / offset) * offset == 8;
    ExtendPeriodic(before, op, d, 8, offset, 8 / offset);
  }

  // ----------------------------------------------- the output as it grows

  /** The output from its prefix on: bytes low to op of the buffer. */
  ghost function Out(s: seq<byte>, low: nat, op: nat): (out: seq<byte>)
    requires low <= op <= |s|
    ensures |out| == op - low
  {
    s[low..op]
  }

  lemma OutputGrows(now: seq<byte>, was: seq<byte>, low: nat, op: nat, end: nat, e: nat, part: seq<byte>)
    requires Untouched(now, was, op, end) && low <= op <= e <= |now| && now[op..e] == part
    ensures Out(now, low, op) == Out(was, low, op)
    ensures Out(now, low, e) == Out(was, low, op) + part
  {
    assert Out(now, low, op) == now[..op][low..] == was[..op][low..];
    SliceJoin(now, low, op, e);
  }

  lemma LiteralsCopied(now: seq<byte>, was: seq<byte>, low: nat, op: nat, e: nat, oend: nat, part: seq<byte>)
    requires low <= op && e == op + |part| && e <= oend <= |was| && now == Splice(was, op, part)
    ensures Untouched(now, was, op, oend)
    ensures Out(now, low, op) == Out(was, low, op) && Out(now, low, e) == Out(was, low, op) + part
  {
    UntouchedSplice(was, was, op, oend, op, part);
    SpliceAppends(was, low, op, part);
    assert Out(now, low, op) == now[..op][low..] == was[..op][low..];
  }

  lemma UntouchedLater(now: seq<byte>, mid: seq<byte>, was: seq<byte>, op0: nat, op: nat, oend: nat)
    requires Untouched(mid, was, op0, oend) && op0 <= op && Untouched(now, mid, op, oend)
    ensures Untouched(now, was, op0, oend)
  {
    UntouchedWider(now, mid, op, oend, op0, oend);
    UntouchedTwice(was, mid, now, op0, oend);
  }
}
