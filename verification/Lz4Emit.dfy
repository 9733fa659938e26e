/** Writing sequences into an output buffer, as both compressors do: token, literal length,
    literals by wild copy, offset and match length, with or without a limit on the output. */
module Lz4Emit {
  import opened Lz4Block
  import opened Slices
  import opened Lz4Copy

  function LengthSize(n: nat): (r: nat)
    ensures r == |LengthBytes(n)|
    ensures 255 * r <= n + 240 && r <= n / 255 + 1 && (n < 15 ==> r == 0)
  {
    if n >= 15 then (n - 15) / 255 + 1 else 0
  }

  /** What ExtBytes looks like: 255 all along, then the remainder. */
  lemma {:induction false} ExtBytesShape(s: seq<byte>, r: nat)
    requires |s| == r / 255 + 1 && s[|s| - 1] == r % 255
    requires forall i | 0 <= i < |s| - 1 :: s[i] == 255
    ensures s == ExtBytes(r)
    decreases r
  {
    if r >= 255 {
      ExtBytesShape(s[1..], r - 255);
      assert s == [255] + s[1..];
    } else {
      assert s == [r];
    }
  }

  method PutByte(dst: array<byte>, op: nat, b: byte, ghost lo: nat, ghost end: nat, ghost was: seq<byte>)
    requires lo <= op < end <= dst.Length && Untouched(dst[..], was, lo, end)
    modifies dst
    ensures Untouched(dst[..], was, lo, end)
    ensures Out(dst[..], lo, op + 1) == Out(old(dst[..]), lo, op) + [b]
    ensures dst[..] == old(dst[..])[op := b]
  {
    ghost var before := dst[..];
    dst[op] := b;
    assert dst[..] == Splice(before, op, [b]);
    UntouchedSplice(before, was, lo, end, op, [b]);
    LiteralsCopied(dst[..], before, lo, op, op + 1, end, [b]);
  }

  /** Extension bytes, one 255 at a time. */
  method WriteExtension(dst: array<byte>, op0: nat, length: nat, ghost end: nat) returns (op: nat)
    requires op0 + length / 255 + 1 <= end <= dst.Length
    modifies dst
    ensures Untouched(dst[..], old(dst[..]), op0, end)
    ensures op == op0 + length / 255 + 1
    ensures Out(dst[..], op0, op) == ExtBytes(length)
  {
    ghost var was := dst[..];
    UntouchedSame(was, op0, end);
    var len := length;
    op := op0;
    while len >= 255
      invariant 0 <= len <= length && op0 <= op < end && op + len / 255 + 1 == op0 + length / 255 + 1
      invariant Untouched(dst[..], was, op0, end)
      invariant Out(dst[..], op0, op) + ExtBytes(len) == ExtBytes(length)
    {
      ghost var before := Out(dst[..], op0, op);
      PutByte(dst, op, 255, op0, end, was);
      assert before + ExtBytes(len) == before + [255] + ExtBytes(len - 255);
      op, len := op + 1, len - 255;
    }
    PutByte(dst, op, len, op0, end, was);
    op := op + 1;
  }

  /** The literal length field and its extension; the token keeps room for the match length. */
  method WriteLiteralLength(dst: array<byte>, op0: nat, length: nat, ghost end: nat) returns (op: nat)
    requires op0 + 1 + LengthSize(length) <= end <= dst.Length
    modifies dst
    ensures Untouched(dst[..], old(dst[..]), op0, end)
    ensures op == op0 + 1 + LengthSize(length)
    ensures Out(dst[..], op0, op) == [Nibble(length) * 16] + LengthBytes(length)
  {
    ghost var was := dst[..];
    UntouchedSame(was, op0, end);
    PutByte(dst, op0, Nibble(length) * 16, op0, end, was);
    op := op0 + 1;
    assert Out(dst[..], op0, op) == [Nibble(length) * 16];
    if length >= RUN_MASK {
      ghost var mid := dst[..];
      op := WriteExtension(dst, op, length - RUN_MASK, end);
      Joined(dst[..], mid, was, op0, op0 + 1, op, end);
    }
  }

  /** Appending behind what was already written. */
  lemma Joined(now: seq<byte>, mid: seq<byte>, was: seq<byte>, lo: nat, op: nat, e: nat, end: nat)
    requires lo <= op <= e <= end && Untouched(mid, was, lo, end) && Untouched(now, mid, op, end)
    ensures Untouched(now, was, lo, end)
    ensures Out(now, lo, e) == Out(mid, lo, op) + Out(now, op, e)
    ensures Out(now, lo, op) == Out(mid, lo, op)
  {
    UntouchedLater(now, mid, was, lo, op, end);
    OutputGrows(now, mid, lo, op, end, e, now[op..e]);
  }

  /** Token and literals of a sequence; refuses when a limited output has no room for it. */
  method EncodeLiteralRun(src: seq<byte>, dst: array<byte>, op0: nat, anchor: nat, ip: nat, limited: bool, olimit: nat, ghost end: nat)
    returns (ok: bool, op: nat)
    requires anchor <= ip && ip + 8 <= |src| && op0 <= end <= dst.Length
    requires if limited then olimit == end else op0 + 1 + LengthSize(ip - anchor) + (ip - anchor) + 8 <= end
    modifies dst
    ensures Untouched(dst[..], old(dst[..]), op0, end)
    ensures ok <==> !limited || op0 + 9 + (ip - anchor) + (ip - anchor) / 255 <= end
    ensures ok ==> op0 < op <= end && op == op0 + 1 + LengthSize(ip - anchor) + (ip - anchor)
    ensures ok && limited ==> op + 7 <= end
    ensures ok ==> Out(dst[..], op0, op) == EncodeLiterals(src[anchor..ip], 0)
  {
    ghost var was := dst[..];
    UntouchedSame(was, op0, end);
    var litLength := ip - anchor;
    op := op0 + 1;
    if limited && op + litLength + (2 + 1 + LASTLITERALS) + litLength / 255 > olimit {
      return false, op;
    }
    op := WriteLiteralLength(dst, op0, litLength, end);
    ghost var mid := dst[..];
    var e := op + litLength;
    WildCopyLiterals(dst, op, src, anchor, e, end);
    Joined(dst[..], mid, was, op0, op, e, end);
    ok, op := true, e;
  }

  /** LZ4_wildCopy8: whole groups of eight bytes, at least one. */
  method WildCopyLiterals(dst: array<byte>, op: nat, src: seq<byte>, ip: nat, e: nat, ghost end: nat)
    requires op <= e && ip + (e - op) + 8 <= |src| && end <= dst.Length
    requires op + 8 <= end && e + 7 <= end
    modifies dst
    ensures Untouched(dst[..], old(dst[..]), op, end)
    ensures Out(dst[..], op, e) == src[ip..ip + (e - op)]
  {
    ghost var was := dst[..];
    UntouchedSame(was, op, end);
    var d, s := op, ip;
    while true
      invariant op <= d && s - ip == d - op && d + 8 <= end && s + 8 <= |src| && (d == op || d < e)
      invariant Untouched(dst[..], was, op, end)
      invariant Out(dst[..], op, d) == src[ip..s]
      decreases e + 8 - d
    {
      CopyEight(dst, op, d, src, ip, s, end, was);
      d, s := d + 8, s + 8;
      if d >= e {
        break;
      }
    }
    SliceOfSlice(dst[..], op, d, 0, e - op, op, e);
    SliceOfSlice(src, ip, s, 0, e - op, ip, ip + (e - op));
  }

  method CopyEight(dst: array<byte>, op: nat, d: nat, src: seq<byte>, ip: nat, s: nat, ghost end: nat, ghost was: seq<byte>)
    requires op <= d && ip <= s && s - ip == d - op && d + 8 <= end <= dst.Length && s + 8 <= |src|
    requires Untouched(dst[..], was, op, end) && Out(dst[..], op, d) == src[ip..s]
    modifies dst
    ensures Untouched(dst[..], was, op, end) && Out(dst[..], op, d + 8) == src[ip..s + 8]
  {
    CopyStripe(dst, op, d, src, ip, s, 8, end, was);
  }

  /** LZ4_writeLE16 */
  function OffsetBytes(offset: Offset): (s: seq<byte>)
    ensures |s| == 2
  {
    [offset % 256, offset / 256]
  }

  method WriteOffset(dst: array<byte>, op: nat, offset: Offset, ghost lo: nat, ghost end: nat, ghost was: seq<byte>) returns (next: nat)
    requires lo <= op && op + 2 <= end <= dst.Length && Untouched(dst[..], was, lo, end)
    modifies dst
    ensures next == op + 2 && Untouched(dst[..], was, lo, end)
    ensures Out(dst[..], lo, next) == Out(old(dst[..]), lo, op) + OffsetBytes(offset)
  {
    ghost var before := Out(dst[..], lo, op);
    PutByte(dst, op, offset % 256, lo, end, was);
    PutByte(dst, op + 1, offset / 256, lo, end, was);
    next := op + 2;
    assert before + [offset % 256] + [offset / 256] == before + [offset % 256, offset / 256];
  }

  /** Adds the match length field to a token written before. */
  method AddToToken(dst: array<byte>, token: nat, op: nat, nibble: nat, ghost literals: seq<byte>, ghost rest: seq<byte>, ghost end: nat)
    requires token < op <= end <= dst.Length && nibble <= 15
    requires Out(dst[..], token, op) == EncodeLiterals(literals, 0) + rest
    modifies dst
    ensures Untouched(dst[..], old(dst[..]), token, end)
    ensures Out(dst[..], token, op) == EncodeLiterals(literals, nibble) + rest
  {
    ghost var was := dst[..];
    UntouchedSame(was, token, end);
    TokenFits(Out(was, token, op), literals, rest);
    assert was[token] == Out(was, token, op)[0];
    dst[token] := dst[token] + nibble;
    TokenReplaced(dst[..], was, token, op, nibble, literals, rest, end);
  }

  lemma TokenFits(s: seq<byte>, literals: seq<byte>, rest: seq<byte>)
    requires s == EncodeLiterals(literals, 0) + rest
    ensures s[0] == Nibble(|literals|) * 16
  {
  }

  lemma TokenReplaced(now: seq<byte>, was: seq<byte>, token: nat, op: nat, nibble: nat, literals: seq<byte>, rest: seq<byte>, end: nat)
    requires token < op <= end <= |was| && nibble <= 15
    requires Out(was, token, op) == EncodeLiterals(literals, 0) + rest
    requires |now| == |was| && was[token] + nibble < 256 && now == was[token := was[token] + nibble]
    ensures Untouched(now, was, token, end)
    ensures Out(now, token, op) == EncodeLiterals(literals, nibble) + rest
  {
    hide LengthBytes, Nibble;
    var a := Out(was, token, op);
    var n := |literals|;
    var tail := LengthBytes(n) + literals;
    assert EncodeLiterals(literals, 0) == [Nibble(n) * 16 as byte] + tail;
    assert EncodeLiterals(literals, nibble) == [Nibble(n) * 16 + nibble as byte] + tail;
    assert a == [Nibble(n) * 16 as byte] + (tail + rest);
    assert was[token] == a[0];
    assert Out(now, token, op) == [now[token]] + a[1..];
    assert a[1..] == tail + rest;
  }

  /** What the check of a limited output asks for in front of n last literals. */
  function LastRoom(n: nat): nat { 1 + n + (n + 240) / 255 }

  /** The last run of literals; refuses when a limited output has no room for it. */
  method EncodeLastLiterals(src: seq<byte>, dst: array<byte>, op0: nat, anchor: nat, limited: bool, olimit: nat, ghost end: nat)
    returns (ok: bool, op: nat)
    requires anchor <= |src| && op0 <= end <= dst.Length
    requires if limited then olimit == end else op0 + 1 + LengthSize(|src| - anchor) + (|src| - anchor) <= end
    modifies dst
    ensures Untouched(dst[..], old(dst[..]), op0, end)
    ensures ok <==> !limited || op0 + LastRoom(|src| - anchor) <= end
    ensures ok ==> op0 < op <= end && op == op0 + 1 + LengthSize(|src| - anchor) + (|src| - anchor)
    ensures ok ==> Out(dst[..], op0, op) == EncodeLiterals(src[anchor..], 0)
  {
    ghost var was := dst[..];
    UntouchedSame(was, op0, end);
    var lastRun := |src| - anchor;
    op := op0;
    if limited && op + lastRun + 1 + (lastRun + 255 - RUN_MASK) / 255 > olimit {
      return false, op;
    }
    op := WriteLiteralLength(dst, op0, lastRun, end);
    ghost var mid := dst[..];
    var e := op + lastRun;
    assert src[anchor..anchor + lastRun] == src[anchor..];
    CopyIn(dst, op, src, anchor, lastRun);
    LiteralsCopied(dst[..], mid, op, op, e, end, src[anchor..]);
    assert Out(mid, op, op) == [];
    Joined(dst[..], mid, was, op0, op, e, end);
    ok, op := true, e;
  }

  /** LZ4_write32 of 0xFFFFFFFF. */
  method WriteOnes(dst: array<byte>, op: nat, ghost lo: nat, ghost end: nat, ghost was: seq<byte>)
    requires lo <= op && op + 4 <= end <= dst.Length && Untouched(dst[..], was, lo, end)
    modifies dst
    ensures Untouched(dst[..], was, lo, end)
    ensures dst[..] == Splice(old(dst[..]), op, [255, 255, 255, 255])
  {
    ghost var before := dst[..];
    dst[op], dst[op + 1], dst[op + 2], dst[op + 3] := 255, 255, 255, 255;
    assert dst[..] == Splice(before, op, [255, 255, 255, 255]);
    UntouchedSplice(before, was, lo, end, op, [255, 255, 255, 255]);
  }

  ghost predicate AllOnes(s: seq<byte>, lo: nat, hi: nat) {
    lo <= hi <= |s| && forall i | lo <= i < hi :: s[i] == 255
  }

  lemma OnesGrow(s: seq<byte>, lo: nat, op: nat)
    requires lo <= op && op + 4 <= |s| && AllOnes(s, lo, op)
    ensures AllOnes(Splice(s, op, [255, 255, 255, 255]), lo, op + 4)
  {
  }

  /** Extension bytes of a match length: four at a time, then the position is corrected. */
  method WriteExtensionByFours(dst: array<byte>, op0: nat, length: nat, ghost end: nat) returns (op: nat)
    requires op0 + length / 255 + 4 <= end <= dst.Length
    modifies dst
    ensures Untouched(dst[..], old(dst[..]), op0, end)
    ensures op == op0 + length / 255 + 1
    ensures Out(dst[..], op0, op) == ExtBytes(length)
  {
    ghost var was := dst[..];
    UntouchedSame(was, op0, end);
    var rest := length;
    op := op0;
    WriteOnes(dst, op, op0, end, was);
    OnesGrow(was, op0, op0);
    while rest >= 4 * 255
      invariant 0 <= rest <= length && op0 <= op && length == rest + 255 * (op - op0)
      invariant op + rest / 255 + 4 <= end
      invariant Untouched(dst[..], was, op0, end)
      invariant AllOnes(dst[..], op0, op + 4)
    {
      op := op + 4;
      ghost var before := dst[..];
      WriteOnes(dst, op, op0, end, was);
      OnesGrow(before, op0, op);
      rest := rest - 4 * 255;
    }
    ghost var before, at := dst[..], op;
    op := op + rest / 255;
    PutByte(dst, op, rest % 255, op0, end, was);
    op := op + 1;
    assert op - op0 == length / 255 + 1 && rest % 255 == length % 255;
    OnesThenRest(before, dst[..], op0, at, op, length);
  }

  lemma OnesThenRest(before: seq<byte>, now: seq<byte>, lo: nat, at: nat, op: nat, length: nat)
    requires AllOnes(before, lo, at + 4) && lo <= at < op <= at + 4 <= |before|
    requires op - lo == length / 255 + 1 && now == before[op - 1 := length % 255]
    ensures Out(now, lo, op) == ExtBytes(length)
  {
    ExtBytesShape(Out(now, lo, op), length);
  }

  method WriteMatchLength(dst: array<byte>, token: nat, op0: nat, matchCode: nat, ghost end: nat, ghost was: seq<byte>) returns (op: nat)
    requires token <= op0 && op0 + LengthSize(matchCode) + 3 <= end <= dst.Length && Untouched(dst[..], was, token, end)
    modifies dst
    ensures Untouched(dst[..], was, token, end)
    ensures op == op0 + LengthSize(matchCode)
    ensures Out(dst[..], token, op) == Out(old(dst[..]), token, op0) + LengthBytes(matchCode)
  {
    ghost var mid := dst[..];
    hide Out, Untouched, LengthSize;
    op := op0;
    if matchCode >= ML_MASK {
      LongSize(matchCode);
      op := WriteExtensionByFours(dst, op0, matchCode - ML_MASK, end);
      Joined(dst[..], mid, was, token, op0, op, end);
    } else {
      NoLength(mid, token, op, matchCode);
    }
  }

  lemma NoLength(s: seq<byte>, token: nat, op: nat, matchCode: nat)
    requires token <= op <= |s| && matchCode < ML_MASK
    ensures LengthSize(matchCode) == 0 && Out(s, token, op) == Out(s, token, op) + LengthBytes(matchCode)
  {
  }

  lemma LongSize(matchCode: nat)
    requires matchCode >= ML_MASK
    ensures LengthSize(matchCode) == (matchCode - ML_MASK) / 255 + 1
  {
  }

  /** Regrouping the pieces of a sequence. */
  lemma SequencePieces(literals: seq<byte>, offset: Offset, matchCode: nat)
    ensures EncodeLiterals(literals, 0) + OffsetBytes(offset) + LengthBytes(matchCode)
         == EncodeLiterals(literals, 0) + EncodeMatch(offset, matchCode + MINMATCH)
  {
    hide EncodeLiterals, LengthBytes;
  }

  /** Offset and match length of a sequence whose token and literals stand before op0. */
  method EncodeMatchCode(dst: array<byte>, token: nat, op0: nat, offset: Offset, matchCode: nat, limited: bool, olimit: nat,
                         ghost literals: seq<byte>, ghost length: nat, ghost end: nat)
    returns (ok: bool, op: nat)
    requires token < op0 <= end <= dst.Length && Out(dst[..], token, op0) == EncodeLiterals(literals, 0)
    requires if limited then olimit == end && op0 + 2 <= end else op0 + 2 + LengthSize(matchCode) + 4 <= end
    requires length == matchCode + MINMATCH
    modifies dst
    ensures Untouched(dst[..], old(dst[..]), token, end)
    ensures ok <==> !limited || op0 + 8 + (matchCode + 240) / 255 <= end
    ensures ok ==> op0 < op <= end && op == op0 + 2 + LengthSize(matchCode)
    ensures ok && limited ==> op + 6 <= end
    ensures ok ==> Out(dst[..], token, op) == EncodeSequence(literals, offset, length)
  {
    ghost var was := dst[..];
    UntouchedSame(was, token, end);
    hide EncodeLiterals, EncodeMatch, LengthBytes, Out, Untouched, OffsetBytes;
    op := WriteOffset(dst, op0, offset, token, end, was);
    if limited && op + (1 + LASTLITERALS) + (matchCode + 240) / 255 > olimit {
      return false, op;
    }
    op := WriteMatchLength(dst, token, op, matchCode, end, was);
    SequencePieces(literals, offset, matchCode);
    ghost var mid := dst[..];
    AddToToken(dst, token, op, Nibble(matchCode), literals, EncodeMatch(offset, matchCode + MINMATCH), end);
    UntouchedTwice(was, mid, dst[..], token, end);
    ok := true;
  }

  // ------------------------------------------------ what was emitted so far

  /** out holds the sequences ss, and they stand for the first anchor bytes of src. */
  ghost predicate Emitted(out: seq<byte>, src: seq<byte>, ss: Sequences, anchor: nat) {
    && anchor <= |src|
    && out == EncodeSequences(ss)
    && Expand([], ss) == src[..anchor]
    && ValidSequences([], ss, |src|)
  }

  /** A match for a sequence that starts at ip, reaches back `offset` and ends at e. */
  ghost predicate IsMatchTo(src: seq<byte>, ip: nat, offset: nat, e: nat) {
    && ip + MFLIMIT <= |src| && ip + MINMATCH <= e <= |src|
    && 1 <= offset <= DISTANCE_MAX && offset <= ip
    && Periodic(src, ip, e, offset)
  }

  lemma MatchExpands(src: seq<byte>, ip: nat, offset: nat, e: nat)
    requires ip <= e <= |src| && 1 <= offset <= ip && Periodic(src, ip, e, offset)
    ensures src[..e] == CopyMatch(src[..ip], offset, e - ip)
  {
    var s := src[..e];
    forall i | ip <= i < |s|
      ensures s[i] == s[i - offset]
    {
      assert SameAt(src, i, offset);
    }
    assert s[..ip] == src[..ip];
    RepeatsIsCopyMatch(s, ip, offset);
  }

  /** Emitting one more sequence. */
  lemma EmitStep(out: seq<byte>, src: seq<byte>, ss: Sequences, anchor: nat, ip: nat, offset: Offset, e: nat) returns (ss': Sequences)
    requires Emitted(out, src, ss, anchor) && anchor <= ip && IsMatchTo(src, ip, offset, e)
    ensures ss' == Append(ss, src[anchor..ip], offset, e - ip)
    ensures Emitted(out + EncodeSequence(src[anchor..ip], offset, e - ip), src, ss', e)
  {
    hide EncodeSequence, CopyMatch;
    ss' := Append(ss, src[anchor..ip], offset, e - ip);
    assert src[..anchor] + src[anchor..ip] == src[..ip];
    MatchExpands(src, ip, offset, e);
  }

  /** Sequences never cost more than 256/255 of the bytes they stand for. */
  lemma {:induction false} EncodedSize(ss: Sequences, total: nat)
    requires ValidSequences([], ss, total)
    ensures 255 * |EncodeSequences(ss)| <= 256 * |Expand([], ss)|
  {
    hide CopyMatch, LengthBytes;
    match ss
    case Start =>
    case Append(before, literals, offset, matchLength) =>
      EncodedSize(before, total);
      var l, m := LengthSize(|literals|), LengthSize(matchLength - MINMATCH);
      assert |EncodeSequence(literals, offset, matchLength)| == 3 + l + |literals| + m;
  }

  /** The room the worst-case bound leaves, step by step. */
  lemma RoomForLiterals(used: nat, anchor: nat, ip: nat, n: nat)
    requires 255 * used <= 256 * anchor && anchor <= ip && ip + MFLIMIT <= n
    ensures used + 1 + LengthSize(ip - anchor) + (ip - anchor) + 8 <= n + n / 255 + 16
  {
    hide LengthBytes;
    var l := LengthSize(ip - anchor);
  }

  lemma RoomForMatch(used: nat, anchor: nat, ip: nat, e: nat, n: nat)
    requires 255 * used <= 256 * anchor && anchor <= ip && ip + MINMATCH <= e && e + LASTLITERALS <= n
    ensures used + 1 + LengthSize(ip - anchor) + (ip - anchor) + 2 + LengthSize(e - ip - MINMATCH) + 4 <= n + n / 255 + 16
  {
    hide LengthBytes;
    var l, m := LengthSize(ip - anchor), LengthSize(e - ip - MINMATCH);
  }

  lemma RoomForLast(used: nat, anchor: nat, n: nat)
    requires 255 * used <= 256 * anchor && anchor <= n
    ensures used + 1 + LengthSize(n - anchor) + (n - anchor) <= n + n / 255 + 16
  {
    hide LengthBytes;
    var l := LengthSize(n - anchor);
  }

  /** A finished block decodes to its source. */
  lemma BlockDone(block: seq<byte>, out: seq<byte>, src: seq<byte>, ss: Sequences, anchor: nat)
    requires Emitted(out, src, ss, anchor) && anchor <= |src| && block == out + EncodeLiterals(src[anchor..], 0)
    requires ss != Start ==> anchor + LASTLITERALS <= |src|
    ensures DecodeFrom(block, 0, []) == Some(src)
    ensures WellFormedFrom(block, 0, 0, |src|)
  {
    hide EncodeLiterals, DecodeFrom, WellFormedFrom, ValidSequences;
    assert [] + src == src;
    assert src[..anchor] + src[anchor..] == src;
    BlockRoundTrip(block, [], ss, src[anchor..], src);
  }
}
