/** LZ4HC_encodeSequence: how the HC compressor writes one sequence. */
module Lz4HcEmit {
  import opened Lz4Block
  import opened Lz4Copy
  import opened Lz4Emit
  import opened Lz4Compress
  import opened Lz4HcMatch

  /** What has been written of the extension bytes of a length, with `len` still to go. */
  ghost predicate Extending(now: seq<byte>, was: seq<byte>, op0: nat, op: nat, end: nat, len: nat, length: nat) {
    && op0 <= op < end && end <= |now| && Untouched(now, was, op0, end)
    && op + ExtraOf(len) == op0 + ExtraOf(length) && op0 + ExtraOf(length) < end
    && Out(now, op0, op) + ExtBytes(len) == ExtBytes(length)
  }

  ghost function ExtraOf(len: nat): nat { len / 255 }

  /** *op++ = 255 */
  method PutFull(dst: array<byte>, op0: nat, op: nat, len: nat, ghost end: nat, ghost length: nat, ghost was: seq<byte>)
    requires len >= 255 && Extending(dst[..], was, op0, op, end, len, length)
    modifies dst
    ensures Extending(dst[..], was, op0, op + 1, end, len - 255, length)
  {
    ghost var before := Out(dst[..], op0, op);
    ExtMore(before, len);
    ExtraLess(len);
    hide ExtBytes, ExtraOf;
    PutByte(dst, op, 255, op0, end, was);
  }

  lemma ExtraLess(len: nat)
    requires len >= 255
    ensures ExtraOf(len) == ExtraOf(len - 255) + 1
  {
  }

  /** Extension bytes of a match length, two at a time. */
  method WriteExtensionByPairs(dst: array<byte>, op0: nat, length: nat, ghost end: nat) returns (op: nat)
    requires op0 + length / 255 + 1 <= end <= dst.Length
    modifies dst
    ensures Untouched(dst[..], old(dst[..]), op0, end)
    ensures op == op0 + length / 255 + 1
    ensures Out(dst[..], op0, op) == ExtBytes(length)
  {
    ghost var was := dst[..];
    StartExtending(was, op0, end, length);
    hide Extending;
    var len := length;
    op := op0;
    while len >= 510
      invariant 0 <= len <= length && Extending(dst[..], was, op0, op, end, len, length)
    {
      PutFull(dst, op0, op, len, end, length, was);
      PutFull(dst, op0, op + 1, len - 255, end, length, was);
      op, len := op + 2, len - 510;
    }
    if len >= 255 {
      PutFull(dst, op0, op, len, end, length, was);
      op, len := op + 1, len - 255;
    }
    op := PutRest(dst, op0, op, len, end, length, was);
  }

  lemma StartExtending(was: seq<byte>, op0: nat, end: nat, length: nat)
    requires op0 + length / 255 + 1 <= end <= |was|
    ensures Extending(was, was, op0, op0, end, length, length)
  {
    UntouchedSame(was, op0, end);
  }

  method PutRest(dst: array<byte>, op0: nat, op1: nat, len: nat, ghost end: nat, ghost length: nat, ghost was: seq<byte>) returns (op: nat)
    requires len < 255 && Extending(dst[..], was, op0, op1, end, len, length)
    modifies dst
    ensures Untouched(dst[..], was, op0, end)
    ensures op == op1 + 1 && op == op0 + length / 255 + 1
    ensures Out(dst[..], op0, op) == ExtBytes(length)
  {
    assert ExtBytes(len) == [len];
    PutByte(dst, op1, len, op0, end, was);
    op := op1 + 1;
  }

  lemma ExtMore(before: seq<byte>, len: nat)
    requires len >= 255
    ensures before + ExtBytes(len) == before + [255] + ExtBytes(len - 255)
  {
  }

  /** The match length's extension fits before end. */
  ghost predicate ExtraFits(op: nat, matchCode: nat, end: nat) {
    op + LengthSize(matchCode) <= end
  }

  method WriteMatchLengthHc(dst: array<byte>, token: nat, op0: nat, matchCode: nat, ghost end: nat, ghost was: seq<byte>) returns (op: nat)
    requires token <= op0 && ExtraFits(op0, matchCode, end) && end <= dst.Length && Untouched(dst[..], was, token, end)
    modifies dst
    ensures Untouched(dst[..], was, token, end)
    ensures op0 <= op <= end
    ensures Out(dst[..], token, op) == Out(old(dst[..]), token, op0) + LengthBytes(matchCode)
  {
    ghost var mid := dst[..];
    op := op0;
    if matchCode >= ML_MASK {
      op := WriteExtensionByPairs(dst, op0, matchCode - ML_MASK, end);
      Joined(dst[..], mid, was, token, op0, op, end);
    } else {
      assert Out(mid, token, op) + [] == Out(mid, token, op);
    }
  }

  /** There is room for the offset, and without a limit for the match length as well. */
  ghost predicate RoomLeft(limited: bool, op: nat, matchLength: MatchLength, end: nat) {
    if limited then op + 2 <= end else op + 2 + LengthSize(matchLength - MINMATCH) <= end
  }

  /** The check of a limited output against the match length. */
  predicate LimitPassed(limited: bool, op: nat, matchCode: nat, olimit: nat) {
    !(limited && op + matchCode / 255 + (1 + LASTLITERALS) > olimit)
  }

  lemma RoomChecked(limited: bool, op0: nat, op: nat, matchLength: MatchLength, matchCode: nat, olimit: nat, end: nat)
    requires RoomLeft(limited, op0, matchLength, end) && (limited ==> olimit == end) && op == op0 + 2 && matchCode + MINMATCH == matchLength
    ensures op <= end && (LimitPassed(limited, op, matchCode, olimit) ==> ExtraFits(op, matchCode, end))
  {
  }

  /** Offset and match length behind the literals, the token not completed yet. */
  method WriteMatchHc(dst: array<byte>, token: nat, op0: nat, offset: Offset, matchLength: MatchLength, limited: bool, olimit: nat,
                      ghost literals: seq<byte>, ghost end: nat)
    returns (ok: bool, op: nat)
    requires token < op0 <= end <= dst.Length && Out(dst[..], token, op0) == EncodeLiterals(literals, 0)
    requires RoomLeft(limited, op0, matchLength, end) && (limited ==> olimit == end)
    modifies dst
    ensures Untouched(dst[..], old(dst[..]), token, end)
    ensures ok <==> LimitPassed(limited, op0 + 2, matchLength - MINMATCH, olimit)
    ensures ok ==> op0 < op <= end
    ensures ok ==> Out(dst[..], token, op) == EncodeLiterals(literals, 0) + EncodeMatch(offset, matchLength)
  {
    ghost var was := dst[..];
    UntouchedSame(was, token, end);
    hide EncodeLiterals, EncodeMatch, LengthBytes, Out, Untouched, LimitPassed, ExtraFits, Nibble, OffsetBytes, RoomLeft, EncodeSequence;
    var matchCode := matchLength - MINMATCH;
    RoomChecked(limited, op0, op0 + 2, matchLength, matchCode, olimit, end);
    op := WriteOffset(dst, op0, offset, token, end, was);
    if !LimitPassed(limited, op, matchCode, olimit) {
      LimitOnly(limited, op, matchCode, olimit);
      return false, op;
    }
    op := WriteMatchLengthHc(dst, token, op, matchCode, end, was);
    MatchPieces(literals, offset, matchLength, matchCode);
    ok := true;
  }

  /** Offset and match length of a sequence whose token and literals stand before op0. */
  method EncodeMatchCodeHc(dst: array<byte>, token: nat, op0: nat, offset: Offset, matchLength: MatchLength, limited: bool, olimit: nat,
                           ghost literals: seq<byte>, ghost end: nat)
    returns (ok: bool, op: nat)
    requires token < op0 <= end <= dst.Length && Out(dst[..], token, op0) == EncodeLiterals(literals, 0)
    requires RoomLeft(limited, op0, matchLength, end) && (limited ==> olimit == end)
    modifies dst
    ensures Untouched(dst[..], old(dst[..]), token, end)
    ensures ok <==> LimitPassed(limited, op0 + 2, matchLength - MINMATCH, olimit)
    ensures ok ==> op0 < op <= end
    ensures ok ==> Out(dst[..], token, op) == EncodeSequence(literals, offset, matchLength)
  {
    ghost var was := dst[..];
    hide EncodeLiterals, EncodeMatch, LengthBytes, Out, Untouched, Nibble, OffsetBytes, RoomLeft, LimitPassed, EncodeSequence;
    ok, op := WriteMatchHc(dst, token, op0, offset, matchLength, limited, olimit, literals, end);
    if ok {
      var matchCode := matchLength - MINMATCH;
      ghost var mid := dst[..];
      AddToToken(dst, token, op, Nibble(matchCode), literals, EncodeMatch(offset, matchLength), end);
      UntouchedTwice(was, mid, dst[..], token, end);
      MatchPieces(literals, offset, matchLength, matchCode);
    }
  }

  lemma LimitOnly(limited: bool, op: nat, matchCode: nat, olimit: nat)
    requires !LimitPassed(limited, op, matchCode, olimit)
    ensures limited
  {
  }

  lemma MatchPieces(literals: seq<byte>, offset: Offset, matchLength: MatchLength, matchCode: nat)
    requires matchCode + MINMATCH == matchLength
    ensures EncodeLiterals(literals, 0) + OffsetBytes(offset) + LengthBytes(matchCode)
         == EncodeLiterals(literals, 0) + EncodeMatch(offset, matchLength)
    ensures EncodeSequence(literals, offset, matchLength) == EncodeLiterals(literals, Nibble(matchCode)) + EncodeMatch(offset, matchLength)
  {
    SequencePieces(literals, offset, matchCode);
    hide EncodeLiterals, LengthBytes;
  }

  /** A match that the format lets a sequence end with. */
  ghost predicate Encodable(src: seq<byte>, m: Match) {
    m.start + MFLIMIT <= |src| && m.len >= MINMATCH && Good(src, m, |src| - LASTLITERALS)
  }

  lemma EncodableIs(src: seq<byte>, m: Match)
    requires Encodable(src, m)
    ensures m.start + MFLIMIT <= |src| && m.len >= MINMATCH && 1 <= m.offset <= DISTANCE_MAX
    ensures End(m) == m.start + m.len && End(m) + LASTLITERALS <= |src|
    ensures IsMatchTo(src, m.start, m.offset, End(m))
  {
  }

  lemma MatchRoom(s: seq<byte>, dst: array<byte>, t: Target, token: nat, op: nat, src: seq<byte>, ss: Sequences, anchor: nat, m: Match)
    requires Roomy(t, dst, |src|) && t.dest <= token <= |s| && Emitted(Out(s, t.dest, token), src, ss, anchor)
    requires anchor <= m.start && m.len >= MINMATCH && End(m) + LASTLITERALS <= |src|
    requires op == token + 1 + LengthSize(m.start - anchor) + (m.start - anchor)
    ensures !t.limited ==> op + 2 + LengthSize(m.len - MINMATCH) <= t.end
  {
    hide Emitted, LengthSize, Roomy;
    assert End(m) - (m.start + MINMATCH) == m.len - MINMATCH;
    MatchFits(s, dst, t, token, op, src, ss, anchor, m.start, End(m));
  }

  method EncodeLiteralsHc(src: seq<byte>, dst: array<byte>, t: Target, token: nat, anchor: nat, m: Match, ghost ss: Sequences)
    returns (ok: bool, op: nat)
    requires Roomy(t, dst, |src|) && t.dest <= token <= t.end && anchor <= m.start
    requires m.start + MFLIMIT <= |src| && m.len >= MINMATCH && End(m) + LASTLITERALS <= |src|
    requires Emitted(Out(dst[..], t.dest, token), src, ss, anchor)
    modifies dst
    ensures Untouched(dst[..], old(dst[..]), t.dest, t.end)
    ensures ok <==> !t.limited || token + 9 + (m.start - anchor) + (m.start - anchor) / 255 <= t.end
    ensures ok ==> op == token + 1 + LengthSize(m.start - anchor) + (m.start - anchor)
    ensures ok ==> token < op <= t.end && RoomLeft(t.limited, op, m.len, t.end)
    ensures ok ==> Emitted(Out(dst[..], t.dest, token), src, ss, anchor)
    ensures ok ==> Out(dst[..], token, op) == EncodeLiterals(src[anchor..m.start], 0)
  {
    hide EncodeLiterals, Emitted, Out, Untouched, LengthSize;
    ok, op := EncodeLiteralsAt(src, dst, t, token, anchor, m.start, ss);
    if ok {
      MatchRoom(dst[..], dst, t, token, op, src, ss, anchor, m);
    }
  }

  lemma HcWritten(now: seq<byte>, was: seq<byte>, t: Target, token: nat, op: nat, src: seq<byte>, ss: Sequences,
                  anchor: nat, m: Match) returns (ss': Sequences)
    requires t.dest <= token <= op <= t.end && Untouched(now, was, token, t.end) && t.end <= |was|
    requires Emitted(Out(was, t.dest, token), src, ss, anchor) && anchor <= m.start && Encodable(src, m)
    requires Out(now, token, op) == EncodeSequence(src[anchor..m.start], m.offset, m.len)
    ensures ss' != Start && Emitted(Out(now, t.dest, op), src, ss', End(m))
    ensures m.offset <= m.start && Added(src, ss', ss, anchor, m.start, m.start - m.offset, End(m))
  {
    hide EncodeSequence, Emitted, Encodable, Out;
    EncodableIs(src, m);
    ss' := SequenceWritten(now, was, t, token, op, src, ss, anchor, m.start, m.offset, m.len, End(m));
  }

  /** What the checks of a limited output ask for: room for the literals and then for the match, and a little more. */
  predicate SequenceFits(t: Target, token: nat, literals: nat, matchLength: nat) {
    t.limited ==>
      && token + 9 + literals + literals / 255 <= t.end && matchLength >= MINMATCH
      && LimitPassed(true, token + 1 + LengthSize(literals) + literals + 2, matchLength - MINMATCH, t.end)
  }

  /** LZ4HC_encodeSequence: the literals from anchor on, then the match. */
  method EncodeSequenceHc(src: seq<byte>, dst: array<byte>, t: Target, token: nat, anchor: nat, m: Match, ghost ss: Sequences)
    returns (ok: bool, op: nat, ghost ss': Sequences)
    requires Roomy(t, dst, |src|) && t.dest <= token <= t.end && anchor <= m.start
    requires Emitted(Out(dst[..], t.dest, token), src, ss, anchor) && Encodable(src, m)
    modifies dst
    ensures Untouched(dst[..], old(dst[..]), t.dest, t.end)
    ensures ok || t.limited
    ensures ok <==> SequenceFits(t, token, m.start - anchor, m.len)
    ensures ok ==> t.dest <= op <= t.end && ss' != Start && Emitted(Out(dst[..], t.dest, op), src, ss', End(m))
    ensures ok ==> m.offset <= m.start && Added(src, ss', ss, anchor, m.start, m.start - m.offset, End(m))
  {
    ghost var was := dst[..];
    hide EncodeLiterals, EncodeSequence, Emitted, Out, Untouched, LengthBytes, Encodable, RoomLeft, Roomy, Added;
    RoomyIs(t, dst, |src|);
    EncodableIs(src, m);
    ss' := ss;
    ok, op := EncodeLiteralsHc(src, dst, t, token, anchor, m, ss);
    if !ok {
      return;
    }
    ghost var mid := dst[..];
    ghost var literals := src[anchor..m.start];
    ok, op := EncodeMatchCodeHc(dst, token, op, m.offset, m.len, t.limited, t.end, literals, t.end);
    if ok {
      ss' := HcWritten(dst[..], mid, t, token, op, src, ss, anchor, m);
    }
    UntouchedWider(dst[..], mid, token, t.end, t.dest, t.end);
    UntouchedTwice(was, mid, dst[..], t.dest, t.end);
  }
}
