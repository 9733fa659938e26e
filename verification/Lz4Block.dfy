/** The LZ4 block format: what a compressed block means, byte by byte, and
    how a list of sequences is written down.  Both compressors are proved to
    emit such lists, and the optimised decoder is proved to compute DecodeFrom. */
module Lz4Block {

  type byte = x: int | 0 <= x < 256

  const MINMATCH := 4
  const LASTLITERALS := 5
  const MFLIMIT := 12
  const ML_MASK := 15
  const RUN_MASK := 15
  const DISTANCE_MAX := 65535
  const MAX_INPUT_SIZE := 0x7E000000

  datatype Option<+T> = None | Some(value: T)

  // ---------------------------------------------------------------- lengths

  /** The extension bytes of a length: 255 means "more follows". */
  function ExtBytes(r: nat): (s: seq<byte>)
    ensures |s| == r / 255 + 1
  {
    if r >= 255 then [255] + ExtBytes(r - 255) else [r]
  }

  /** Extension bytes of a length whose 4-bit field saturates at 15. */
  function LengthBytes(n: nat): (s: seq<byte>) {
    if n >= 15 then ExtBytes(n - 15) else []
  }

  function Nibble(n: nat): (r: nat)
    ensures r <= 15
  {
    if n >= 15 then 15 else n
  }

  /** The two halves of a token: literal length and match length, before extension. */
  function LiteralField(token: byte): (r: nat)
    ensures r <= 15
  {
    token / 16
  }

  function MatchField(token: byte): (r: nat)
    ensures r <= 15
  {
    token % 16
  }

  /** A 16-bit little-endian value. */
  function Read16(src: seq<byte>, q: nat): (r: nat)
    requires q + 2 <= |src|
    ensures r < 65536
  {
    src[q] as int + 256 * src[q + 1] as int
  }

  /** Sums extension bytes from position ip; the second component is the position after them. */
  function ExtAt(src: seq<byte>, ip: nat): (r: Option<(nat, nat)>)
    ensures r.Some? ==> ip < r.value.1 <= |src|
    decreases |src| - ip
  {
    if ip >= |src| then None
    else if src[ip] == 255 then
      match ExtAt(src, ip + 1)
      case None => None
      case Some(p) => Some((p.0 + 255, p.1))
    else Some((src[ip], ip + 1))
  }

  function LengthAt(src: seq<byte>, ip: nat, nibble: nat): (r: Option<(nat, nat)>)
    requires ip <= |src|
    ensures r.Some? ==> ip <= r.value.1 <= |src| && r.value.0 >= nibble
  {
    if nibble != 15 then Some((nibble, ip))
    else match ExtAt(src, ip)
      case None => None
      case Some(p) => Some((15 + p.0, p.1))
  }

  ghost predicate Holds(src: seq<byte>, ip: nat, part: seq<byte>) {
    ip + |part| <= |src| && src[ip..ip + |part|] == part
  }

  lemma HoldsConcat(src: seq<byte>, ip: nat, a: seq<byte>, b: seq<byte>)
    requires Holds(src, ip, a + b)
    ensures Holds(src, ip, a) && Holds(src, ip + |a|, b)
  {
    assert src[ip..ip + |a|] == src[ip..ip + |a + b|][..|a|];
    assert src[ip + |a|..ip + |a| + |b|] == src[ip..ip + |a + b|][|a|..];
  }

  lemma {:induction false} ExtRoundTrip(src: seq<byte>, ip: nat, r: nat)
    requires Holds(src, ip, ExtBytes(r))
    ensures ExtAt(src, ip) == Some((r, ip + |ExtBytes(r)|))
    decreases r
  {
    assert src[ip] == src[ip..ip + |ExtBytes(r)|][0];
    if r >= 255 {
      assert src[ip + 1..ip + 1 + |ExtBytes(r - 255)|] == src[ip..ip + |ExtBytes(r)|][1..];
      ExtRoundTrip(src, ip + 1, r - 255);
    }
  }

  lemma LengthRoundTrip(src: seq<byte>, ip: nat, n: nat)
    requires Holds(src, ip, LengthBytes(n))
    ensures LengthAt(src, ip, Nibble(n)) == Some((n, ip + |LengthBytes(n)|))
  {
    if n >= 15 {
      ExtRoundTrip(src, ip, n - 15);
    }
  }

  // --------------------------------------------------------------- matches

  /** Appends n bytes, each equal to the byte `offset` positions before it.
      Offset 0 is not valid in the format; the decoder emits zeros for it. */
  function CopyMatch(out: seq<byte>, offset: nat, n: nat): (r: seq<byte>)
    requires offset <= |out|
    ensures |r| == |out| + n
    decreases n
  {
    if n == 0 then out
    else CopyMatch(out + [if offset == 0 then 0 else out[|out| - offset]], offset, n - 1)
  }

  /** s continues its own first lo bytes with period p (with zeros when p is 0). */
  ghost predicate Repeats(s: seq<byte>, lo: nat, p: nat) {
    p <= lo <= |s| &&
    forall i :: lo <= i < |s| ==> s[i] == if p == 0 then 0 else s[i - p]
  }

  lemma {:induction false} CopyMatchRepeats(out: seq<byte>, offset: nat, n: nat)
    requires offset <= |out|
    ensures CopyMatch(out, offset, n)[..|out|] == out
    ensures Repeats(CopyMatch(out, offset, n), |out|, offset)
    decreases n
  {
    if n > 0 {
      var out' := out + [if offset == 0 then 0 else out[|out| - offset]];
      CopyMatchRepeats(out', offset, n - 1);
      var r := CopyMatch(out, offset, n);
      assert r[..|out|] == r[..|out'|][..|out|];
      assert r[|out|] == r[..|out'|][|out|];
      if offset > 0 {
        assert r[|out| - offset] == r[..|out'|][|out| - offset];
      }
    }
  }

  /** Any sequence with the same history, length and period is what CopyMatch yields. */
  lemma RepeatsIsCopyMatch(s: seq<byte>, lo: nat, offset: nat)
    requires Repeats(s, lo, offset)
    ensures s == CopyMatch(s[..lo], offset, |s| - lo)
  {
    var r := CopyMatch(s[..lo], offset, |s| - lo);
    CopyMatchRepeats(s[..lo], offset, |s| - lo);
    var i := lo;
    assert s[..lo] == r[..lo];
    while i < |s|
      invariant lo <= i <= |s|
      invariant s[..i] == r[..i]
    {
      if offset > 0 {
        assert s[i - offset] == s[..i][i - offset] == r[..i][i - offset] == r[i - offset];
      }
      assert s[i] == r[i];
      assert s[..i + 1] == s[..i] + [s[i]] && r[..i + 1] == r[..i] + [r[i]];
      i := i + 1;
    }
  }

  // ------------------------------------------------------------ decoding

  /** One step of a block.  Positions are offsets into the block. */
  datatype Item =
    | Malformed
    | Final(start: nat, length: nat)
    | Item(start: nat, length: nat, offset: nat, matchLength: nat, next: nat)

  /** What follows the literals: a block ends exactly where literals end. */
  function MatchAt(src: seq<byte>, start: nat, length: nat, nibble: nat): (r: Item)
    requires start <= |src|
    ensures r.Final? ==> r.start + r.length == |src|
    ensures r.Item? ==> r.start + r.length + 2 <= r.next <= |src| && r.matchLength >= 4 && r.offset < 65536
  {
    var q := start + length;
    if q > |src| then Malformed
    else if q == |src| then Final(start, length)
    else if q + 2 > |src| then Malformed
    else match LengthAt(src, q + 2, nibble)
      case None => Malformed
      case Some(m) => Item(start, length, Read16(src, q), m.0 + MINMATCH, m.1)
  }

  function ItemAt(src: seq<byte>, ip: nat): (r: Item)
    requires ip < |src|
    ensures r.Final? ==> ip < r.start && r.start + r.length == |src|
    ensures r.Item? ==> ip < r.start && r.start + r.length + 2 <= r.next <= |src| && r.matchLength >= 4 && r.offset < 65536
  {
    match LengthAt(src, ip + 1, LiteralField(src[ip]))
    case None => Malformed
    case Some(l) => MatchAt(src, l.1, l.0, MatchField(src[ip]))
  }

  /** The meaning of the rest of a block, given the bytes produced so far. */
  function DecodeFrom(src: seq<byte>, ip: nat, out: seq<byte>): (r: Option<seq<byte>>)
    requires ip <= |src|
    decreases |src| - ip
  {
    if ip == |src| then None
    else match ItemAt(src, ip)
      case Malformed => None
      case Final(start, length) => Some(out + src[start..start + length])
      case Item(start, length, offset, matchLength, next) =>
        var out' := out + src[start..start + length];
        if offset > |out'| then None
        else DecodeFrom(src, next, CopyMatch(out', offset, matchLength))
  }

  /** What stands further back than the offset does not matter. */
  lemma {:induction false} CopyMatchBehind(pre: seq<byte>, out: seq<byte>, offset: nat, n: nat)
    requires offset <= |out|
    ensures CopyMatch(pre + out, offset, n) == pre + CopyMatch(out, offset, n)
    decreases n
  {
    if n > 0 {
      var more := [if offset == 0 then 0 else out[|out| - offset]];
      assert pre + out + more == pre + (out + more);
      assert offset > 0 ==> (pre + out)[|pre + out| - offset] == out[|out| - offset];
      CopyMatchBehind(pre, out + more, offset, n - 1);
    }
  }

  /** The format's restrictions on a valid block: offsets are at least 1 and stay inside what was
      produced, the last match starts at least MFLIMIT bytes before the end, and a block that has
      matches ends with at least LASTLITERALS literals. */
  ghost predicate WellFormedFrom(src: seq<byte>, ip: nat, produced: nat, total: nat)
    requires ip <= |src|
    decreases |src| - ip
  {
    ip < |src| &&
    match ItemAt(src, ip)
    case Malformed => false
    case Final(start, length) => produced + length == total && (ip == 0 || length >= LASTLITERALS)
    case Item(start, length, offset, matchLength, next) =>
      && 1 <= offset <= produced + length
      && produced + length + MFLIMIT <= total
      && WellFormedFrom(src, next, produced + length + matchLength, total)
  }

  /** What a well-formed rest of a block still has to come, when it is not the start. */
  lemma {:induction false} WellFormedTail(src: seq<byte>, ip: nat, produced: nat, total: nat)
    requires 0 < ip <= |src| && WellFormedFrom(src, ip, produced, total)
    ensures ip + 1 + LASTLITERALS <= |src| && produced + LASTLITERALS <= total
    decreases |src| - ip
  {
    var item := ItemAt(src, ip);
    if item.Item? {
      WellFormedTail(src, item.next, produced + item.length + item.matchLength, total);
    }
  }

  lemma {:induction false} WellFormedUnique(src: seq<byte>, ip: nat, produced: nat, t1: nat, t2: nat)
    requires ip <= |src| && WellFormedFrom(src, ip, produced, t1) && WellFormedFrom(src, ip, produced, t2)
    ensures t1 == t2
    decreases |src| - ip
  {
    var item := ItemAt(src, ip);
    if item.Item? {
      WellFormedUnique(src, item.next, produced + item.length + item.matchLength, t1, t2);
    }
  }

  /** A well-formed block has a meaning, and it has the announced size. */
  lemma {:induction false} WellFormedDecodes(src: seq<byte>, ip: nat, out: seq<byte>, total: nat)
    requires ip <= |src| && WellFormedFrom(src, ip, |out|, total)
    ensures DecodeFrom(src, ip, out).Some? && |DecodeFrom(src, ip, out).value| == total
    ensures out <= DecodeFrom(src, ip, out).value
    decreases |src| - ip
  {
    hide ItemAt;
    var item := ItemAt(src, ip);
    if item.Item? {
      var out' := out + src[item.start..item.start + item.length];
      var grown := CopyMatch(out', item.offset, item.matchLength);
      CopyMatchExtends(out, src[item.start..item.start + item.length], item.offset, item.matchLength);
      WellFormedDecodes(src, item.next, grown, total);
      PrefixOfPrefix(out, grown, DecodeFrom(src, item.next, grown).value);
    }
  }

  lemma CopyMatchExtends(out: seq<byte>, more: seq<byte>, offset: nat, n: nat)
    requires offset <= |out + more|
    ensures out <= CopyMatch(out + more, offset, n)
  {
    hide CopyMatch;
    CopyMatchRepeats(out + more, offset, n);
    assert out == (out + more)[..|out|];
    PrefixOfPrefix(out, out + more, CopyMatch(out + more, offset, n));
  }

  lemma PrefixOfPrefix(a: seq<byte>, b: seq<byte>, c: seq<byte>)
    requires a <= b <= c
    ensures a <= c
  {
  }

  // ------------------------------------------------------------ encoding

  type Offset = x: nat | 1 <= x <= DISTANCE_MAX witness 1
  type MatchLength = x: nat | x >= MINMATCH witness MINMATCH

  /** The sequences of a block, the newest one outermost. */
  datatype Sequences =
    | Start
    | Append(before: Sequences, literals: seq<byte>, offset: Offset, matchLength: MatchLength)

  function EncodeLiterals(literals: seq<byte>, nibble: nat): (s: seq<byte>)
    requires nibble <= 15
    ensures |s| == 1 + |LengthBytes(|literals|)| + |literals|
  {
    [Nibble(|literals|) * 16 + nibble] + LengthBytes(|literals|) + literals
  }

  function EncodeMatch(offset: Offset, matchLength: MatchLength): (s: seq<byte>)
    ensures |s| == 2 + |LengthBytes(matchLength - MINMATCH)|
  {
    [offset % 256, offset / 256] + LengthBytes(matchLength - MINMATCH)
  }

  /** A sequence as it stands in a block. */
  function EncodeSequence(literals: seq<byte>, offset: Offset, matchLength: MatchLength): (s: seq<byte>)
    ensures |s| > 0
  {
    EncodeLiterals(literals, Nibble(matchLength - MINMATCH)) + EncodeMatch(offset, matchLength)
  }

  function EncodeSequences(ss: Sequences): (s: seq<byte>)
    ensures ss.Start? ==> s == []
  {
    match ss
    case Start => []
    case Append(before, literals, offset, matchLength) =>
      EncodeSequences(before) + EncodeSequence(literals, offset, matchLength)
  }

  /** The bytes a list of sequences stands for, after the bytes in history. */
  function Expand(history: seq<byte>, ss: Sequences): (out: seq<byte>)
    ensures |out| >= |history|
  {
    match ss
    case Start => history
    case Append(before, literals, offset, matchLength) =>
      var out := Expand(history, before) + literals;
      if offset <= |out| then CopyMatch(out, offset, matchLength) else out
  }

  /** Offsets reach back no further than the data, and every match starts at least MFLIMIT bytes
      before the end of it. */
  predicate ValidSequences(history: seq<byte>, ss: Sequences, total: nat) {
    match ss
    case Start => true
    case Append(before, literals, offset, _) =>
      && ValidSequences(history, before, total)
      && offset <= |Expand(history, before)| + |literals|
      && |Expand(history, before)| + |literals| + MFLIMIT <= total
  }

  lemma LiteralsRoundTrip(src: seq<byte>, ip: nat, literals: seq<byte>, nibble: nat)
    requires nibble <= 15 && Holds(src, ip, EncodeLiterals(literals, nibble))
    ensures ip < |src| && MatchField(src[ip]) == nibble
    ensures var start := ip + 1 + |LengthBytes(|literals|)|;
            && LengthAt(src, ip + 1, LiteralField(src[ip])) == Some((|literals|, start))
            && Holds(src, start, literals)
            && start + |literals| == ip + |EncodeLiterals(literals, nibble)|
  {
    hide Nibble, LengthBytes, LengthAt;
    var n := |literals|;
    var token: byte := Nibble(n) * 16 + nibble;
    HoldsConcat(src, ip, [token] + LengthBytes(n), literals);
    HoldsConcat(src, ip, [token], LengthBytes(n));
    TokenFields(src, ip, Nibble(n), nibble);
    LengthRoundTrip(src, ip + 1, n);
  }

  lemma TokenFields(src: seq<byte>, ip: nat, high: nat, low: nat)
    requires high <= 15 && low <= 15 && Holds(src, ip, [high * 16 + low])
    ensures ip < |src| && LiteralField(src[ip]) == high && MatchField(src[ip]) == low
  {
    assert src[ip] == src[ip..ip + 1][0];
  }

  lemma MatchRoundTrip(src: seq<byte>, start: nat, length: nat, offset: Offset, matchLength: MatchLength)
    requires start <= |src| && Holds(src, start + length, EncodeMatch(offset, matchLength))
    ensures MatchAt(src, start, length, Nibble(matchLength - MINMATCH)) ==
            Item(start, length, offset, matchLength, start + length + |EncodeMatch(offset, matchLength)|)
  {
    var q, m := start + length, matchLength - MINMATCH;
    HoldsConcat(src, q, [offset % 256, offset / 256], LengthBytes(m));
    assert src[q] == src[q..q + 2][0] && src[q + 1] == src[q..q + 2][1];
    LengthRoundTrip(src, q + 2, m);
  }

  ghost predicate IsItem(src: seq<byte>, ip: nat, literals: seq<byte>, offset: nat, matchLength: nat, next: nat) {
    ip < |src| &&
    var i := ItemAt(src, ip);
    i.Item? && src[i.start..i.start + i.length] == literals && i.length == |literals| &&
    i.offset == offset && i.matchLength == matchLength && i.next == next
  }

  /** Reading back one encoded sequence, wherever it stands. */
  lemma ItemRoundTrip(src: seq<byte>, ip: nat, literals: seq<byte>, offset: Offset, matchLength: MatchLength)
    requires Holds(src, ip, EncodeSequence(literals, offset, matchLength))
    ensures IsItem(src, ip, literals, offset, matchLength, ip + |EncodeSequence(literals, offset, matchLength)|)
  {
    var m := matchLength - MINMATCH;
    hide EncodeLiterals, EncodeMatch, MatchAt, LengthAt, LengthBytes;
    HoldsConcat(src, ip, EncodeLiterals(literals, Nibble(m)), EncodeMatch(offset, matchLength));
    LiteralsRoundTrip(src, ip, literals, Nibble(m));
    MatchRoundTrip(src, ip + 1 + |LengthBytes(|literals|)|, |literals|, offset, matchLength);
  }

  /** Decoding across one sequence. */
  lemma DecodeStep(src: seq<byte>, ip: nat, ss: Sequences, history: seq<byte>)
    requires ss.Append? && ss.offset <= |Expand(history, ss.before)| + |ss.literals|
    requires Holds(src, ip, EncodeSequence(ss.literals, ss.offset, ss.matchLength))
    ensures var next := ip + |EncodeSequence(ss.literals, ss.offset, ss.matchLength)|;
            DecodeFrom(src, ip, Expand(history, ss.before)) == DecodeFrom(src, next, Expand(history, ss))
  {
    hide EncodeSequence, ItemAt;
    ItemRoundTrip(src, ip, ss.literals, ss.offset, ss.matchLength);
  }

  lemma WellFormedStep(src: seq<byte>, ip: nat, ss: Sequences, history: seq<byte>, total: nat)
    requires ss.Append? && ValidSequences(history, ss, total)
    requires Holds(src, ip, EncodeSequence(ss.literals, ss.offset, ss.matchLength))
    requires var next := ip + |EncodeSequence(ss.literals, ss.offset, ss.matchLength)|;
             WellFormedFrom(src, next, |Expand(history, ss)|, total)
    ensures WellFormedFrom(src, ip, |Expand(history, ss.before)|, total)
  {
    hide EncodeSequence, ItemAt;
    ItemRoundTrip(src, ip, ss.literals, ss.offset, ss.matchLength);
  }

  ghost predicate StartsWith(src: seq<byte>, a: seq<byte>) {
    a <= src
  }

  lemma PrefixStep(src: seq<byte>, a: seq<byte>, b: seq<byte>)
    requires StartsWith(src, a + b)
    ensures StartsWith(src, a) && Holds(src, |a|, b)
  {
    assert src[..|a|] == (a + b)[..|a|];
    assert src[|a|..|a| + |b|] == (a + b)[|a|..];
  }

  lemma PrefixAppend(src: seq<byte>, ss: Sequences)
    requires ss.Append? && StartsWith(src, EncodeSequences(ss))
    ensures StartsWith(src, EncodeSequences(ss.before))
    ensures Holds(src, |EncodeSequences(ss.before)|, EncodeSequence(ss.literals, ss.offset, ss.matchLength))
    ensures |EncodeSequences(ss)| == |EncodeSequences(ss.before)| + |EncodeSequence(ss.literals, ss.offset, ss.matchLength)|
  {
    hide EncodeSequence, Holds, StartsWith;
    PrefixStep(src, EncodeSequences(ss.before), EncodeSequence(ss.literals, ss.offset, ss.matchLength));
  }

  /** A block that starts with encoded sequences decodes to their expansion first. */
  lemma {:induction false} DecodeSequences(src: seq<byte>, history: seq<byte>, ss: Sequences, total: nat)
    requires ValidSequences(history, ss, total) && StartsWith(src, EncodeSequences(ss))
    ensures |EncodeSequences(ss)| <= |src|
    ensures DecodeFrom(src, 0, history) == DecodeFrom(src, |EncodeSequences(ss)|, Expand(history, ss))
  {
    hide EncodeSequence, ItemAt, DecodeFrom, Holds;
    if ss.Append? {
      hide StartsWith, EncodeSequences, Expand;
      PrefixAppend(src, ss);
      DecodeSequences(src, history, ss.before, total);
      DecodeStep(src, |EncodeSequences(ss.before)|, ss, history);
    }
  }

  lemma {:induction false} WellFormedSequences(src: seq<byte>, history: seq<byte>, ss: Sequences, total: nat)
    requires ValidSequences(history, ss, total) && StartsWith(src, EncodeSequences(ss))
    requires |EncodeSequences(ss)| <= |src|
    requires WellFormedFrom(src, |EncodeSequences(ss)|, |Expand(history, ss)|, total)
    ensures WellFormedFrom(src, 0, |history|, total)
  {
    hide EncodeSequence, ItemAt, WellFormedFrom, Holds;
    if ss.Append? {
      hide StartsWith, EncodeSequences, Expand;
      PrefixAppend(src, ss);
      WellFormedStep(src, |EncodeSequences(ss.before)|, ss, history, total);
      WellFormedSequences(src, history, ss.before, total);
    }
  }

  /** A block as a compressor leaves it: sequences, then a last run of literals. */
  ghost predicate IsBlockOf(block: seq<byte>, history: seq<byte>, ss: Sequences, tail: seq<byte>, data: seq<byte>) {
    && ValidSequences(history, ss, |history| + |data|)
    && block == EncodeSequences(ss) + EncodeLiterals(tail, 0)
    && history + data == Expand(history, ss) + tail
    && (ss != Start ==> |tail| >= LASTLITERALS)
  }

  /** The round trip of the format: such a block is well formed and means its data. */
  lemma BlockRoundTrip(block: seq<byte>, history: seq<byte>, ss: Sequences, tail: seq<byte>, data: seq<byte>)
    requires IsBlockOf(block, history, ss, tail, data)
    ensures DecodeFrom(block, 0, history) == Some(history + data)
    ensures WellFormedFrom(block, 0, |history|, |history| + |data|)
  {
    hide EncodeLiterals, EncodeSequences, Expand, ValidSequences, DecodeFrom, WellFormedFrom;
    ConcatParts(block, EncodeSequences(ss), EncodeLiterals(tail, 0));
    FinalRoundTrip(block, |EncodeSequences(ss)|, Expand(history, ss), tail);
    assert |history + data| == |history| + |data|;
    DecodeSequences(block, history, ss, |history| + |data|);
    WellFormedSequences(block, history, ss, |history| + |data|);
  }

  lemma ConcatParts(s: seq<byte>, a: seq<byte>, b: seq<byte>)
    requires s == a + b
    ensures StartsWith(s, a) && |a| <= |s| && s[|a|..] == b
  {
  }

  lemma FinalItem(block: seq<byte>, ip: nat, tail: seq<byte>)
    requires ip <= |block| && block[ip..] == EncodeLiterals(tail, 0)
    ensures ip < |block| && ItemAt(block, ip).Final? && ItemAt(block, ip).length == |tail|
    ensures var i := ItemAt(block, ip); block[i.start..i.start + i.length] == tail
  {
    hide EncodeLiterals, LengthAt, LengthBytes;
    assert block[ip..ip + |EncodeLiterals(tail, 0)|] == block[ip..];
    LiteralsRoundTrip(block, ip, tail, 0);
  }

  lemma FinalRoundTrip(block: seq<byte>, ip: nat, out: seq<byte>, tail: seq<byte>)
    requires ip <= |block| && block[ip..] == EncodeLiterals(tail, 0)
    requires ip == 0 || |tail| >= LASTLITERALS
    ensures DecodeFrom(block, ip, out) == Some(out + tail)
    ensures WellFormedFrom(block, ip, |out|, |out| + |tail|)
  {
    hide EncodeLiterals, ItemAt;
    FinalItem(block, ip, tail);
  }
}
