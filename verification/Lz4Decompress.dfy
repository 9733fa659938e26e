/** LZ4_decompress_generic for full blocks, with the output optionally preceded in memory by a
    prefix: the fast loop, the two-stage shortcut, and the safe loop they fall into.  For every
    input the decoder stays inside both buffers; what it accepts decodes, byte by byte, to what it
    wrote; and it accepts every well-formed block that fits. */
module Lz4Decompress {
  import opened Lz4Block
  import opened Slices
  import opened Lz4Copy

  const FASTLOOP_SAFE_DISTANCE := 64
  const MATCH_SAFEGUARD_DISTANCE := 12

  /** The block from ip on, after the output out, means target; when total is not negative the
      block is moreover well formed with that total size. */
  ghost predicate Reached(src: seq<byte>, ip: nat, out: seq<byte>, target: Option<seq<byte>>, total: int) {
    && ip <= |src|
    && DecodeFrom(src, ip, out) == target
    && (total >= 0 ==> WellFormedFrom(src, ip, |out|, total))
  }

  /** The same with the token at tok read: literals of this length start at ip. */
  ghost predicate LiteralsAt(src: seq<byte>, tok: nat, ip: nat, length: nat, out: seq<byte>, target: Option<seq<byte>>, total: int) {
    && tok < ip <= |src|
    && Reached(src, tok, out, target, total)
    && ItemAt(src, tok) == MatchAt(src, ip, length, MatchField(src[tok]))
  }

  /** The same with offset and length of the match read and the rest starting at next. */
  ghost predicate MatchPending(src: seq<byte>, next: nat, offset: nat, length: nat, out: seq<byte>, target: Option<seq<byte>>, total: int) {
    && next < |src|
    && length >= MINMATCH
    && target == (if offset > |out| then None else DecodeFrom(src, next, CopyMatch(out, offset, length)))
    && (total >= 0 ==>
          && 1 <= offset <= |out|
          && |out| + length + LASTLITERALS <= total && |out| + MFLIMIT <= total
          && WellFormedFrom(src, next, |out| + length, total))
  }

  /** The literals are copied; offset and match length are still to be read, from ip on. */
  ghost predicate OffsetAt(src: seq<byte>, ip: nat, nibble: nat, out: seq<byte>, target: Option<seq<byte>>, total: int) {
    && ip + 2 <= |src|
    && (match LengthAt(src, ip + 2, nibble)
        case None => total < 0
        case Some(m) =>
          && (m.1 < |src| ==> MatchPending(src, m.1, Read16(src, ip), m.0 + MINMATCH, out, target, total))
          && (total >= 0 ==> m.1 + 1 + LASTLITERALS <= |src|))
  }

  // ------------------------------------------------- reading the block

  lemma WellFormedRoom(src: seq<byte>, tok: nat, ip: nat, length: nat, out: seq<byte>, target: Option<seq<byte>>, total: int)
    requires LiteralsAt(src, tok, ip, length, out, target, total) && total >= 0
    ensures ip + length <= |src|
    ensures ip + length == |src| ==> |out| + length == total
    ensures ip + length < |src| ==> ip + length + 8 <= |src| && |out| + length + MFLIMIT <= total
  {
    hide LengthAt;
    var item := ItemAt(src, tok);
    if item.Item? {
      WellFormedTail(src, item.next, |out| + item.length + item.matchLength, total);
    }
  }

  lemma TakeLiterals(src: seq<byte>, tok: nat, ip: nat, length: nat, q: nat, out: seq<byte>, target: Option<seq<byte>>, total: int)
    requires LiteralsAt(src, tok, ip, length, out, target, total)
    requires q == ip + length && q + 2 <= |src|
    ensures OffsetAt(src, q, MatchField(src[tok]), out + src[ip..q], target, total)
  {
    hide LengthAt, CopyMatch, ItemAt;
    var item := ItemAt(src, tok);
    if item.Item? && total >= 0 {
      WellFormedTail(src, item.next, |out| + item.length + item.matchLength, total);
    }
  }

  lemma TakeLast(src: seq<byte>, tok: nat, ip: nat, length: nat, out: seq<byte>, target: Option<seq<byte>>, total: int)
    requires LiteralsAt(src, tok, ip, length, out, target, total)
    requires ip + length == |src|
    ensures target == Some(out + src[ip..ip + length])
    ensures total >= 0 ==> |out| + length == total
  {
    hide LengthAt;
  }

  lemma TakeMatch(src: seq<byte>, next: nat, offset: nat, length: nat, out: seq<byte>, target: Option<seq<byte>>, total: int)
    requires MatchPending(src, next, offset, length, out, target, total) && offset <= |out|
    ensures Reached(src, next, CopyMatch(out, offset, length), target, total)
  {
    hide CopyMatch, DecodeFrom, WellFormedFrom;
  }

  /** read_variable_length: fails exactly when the length is truncated or ends after ilimit. */
  method ReadVariableLength(src: seq<byte>, start: nat, ilimit: int, initialCheck: bool) returns (ok: bool, length: nat, ip: nat)
    requires ilimit < |src| && (start < |src| || initialCheck)
    ensures ok ==> ExtAt(src, start) == Some((length, ip)) && ip <= ilimit
    ensures !ok ==> ExtAt(src, start) == None || ExtAt(src, start).value.1 > ilimit || (initialCheck && start >= ilimit)
  {
    ip, length := start, 0;
    if initialCheck && ip >= ilimit {
      return false, 0, ip;
    }
    while true
      invariant start <= ip < |src|
      invariant ExtAt(src, start) == match ExtAt(src, ip) { case None => None case Some(p) => Some((length + p.0, p.1)) }
      decreases |src| - ip
    {
      var s := src[ip];
      ip := ip + 1;
      length := length + s;
      if ip > ilimit {
        return false, length, ip;
      }
      if s != 255 {
        return true, length, ip;
      }
    }
  }

  /** Reads the literal length of the token at tok. */
  method ReadLiteralLength(src: seq<byte>, tok: nat, ghost out: seq<byte>, ghost target: Option<seq<byte>>, ghost total: int)
    returns (ok: bool, length: nat, ip: nat)
    requires tok < |src| && Reached(src, tok, out, target, total)
    ensures ok ==> LiteralsAt(src, tok, ip, length, out, target, total)
    ensures ok && LiteralField(src[tok]) != 15 ==> length == LiteralField(src[tok]) && ip == tok + 1
    ensures ok && LiteralField(src[tok]) == 15 ==> length >= 15
    ensures !ok ==> total < 0
  {
    length, ip := LiteralField(src[tok]), tok + 1;
    ok := true;
    if length == RUN_MASK {
      var addl;
      ok, addl, ip := ReadVariableLength(src, ip, |src| - RUN_MASK, true);
      length := length + addl;
    }
    if !ok && total >= 0 {
      LongLiteralsFit(src, tok, out, total);
      assert false;
    }
  }

  lemma LongLiteralsFit(src: seq<byte>, tok: nat, out: seq<byte>, total: int)
    requires tok < |src| && total >= 0 && WellFormedFrom(src, tok, |out|, total) && LiteralField(src[tok]) == 15
    ensures ExtAt(src, tok + 1).Some? && ExtAt(src, tok + 1).value.1 <= |src| - 15 && tok + 1 < |src| - 15
  {
  }

  /** Reads offset and match length; ip is where the offset stands. */
  method ReadMatch(src: seq<byte>, start: nat, nibble: nat, ghost out: seq<byte>, ghost target: Option<seq<byte>>, ghost total: int)
    returns (ok: bool, offset: nat, length: nat, ip: nat)
    requires nibble <= 15 && start + 2 < |src| && OffsetAt(src, start, nibble, out, target, total)
    ensures ok ==> MatchPending(src, ip, offset, length, out, target, total)
    ensures ok && nibble != 15 ==> length == nibble + 4 && ip == start + 2
    ensures ok ==> start + 2 <= ip
    ensures !ok ==> total < 0 && nibble == 15
    ensures offset == Read16(src, start)
  {
    hide MatchPending, ExtAt;
    offset := Read16(src, start);
    ip := start + 2;
    length := nibble;
    ok := true;
    if length == ML_MASK {
      var addl;
      ok, addl, ip := ReadVariableLength(src, ip, |src| - LASTLITERALS + 1, false);
      length := length + addl;
    }
    length := length + MINMATCH;
  }

  // ---------------------------------------------------------- the output

  /** Where a step of the decoder goes next: the next token, the safe copies, or out. */
  datatype Exit = Proceed | ToSafeLiterals | ToSafeMatch | Finished | Error

  /** The dictionary, followed by the output so far and what is in front of it. */
  ghost function History(dict: seq<byte>, s: seq<byte>, low: nat, op: nat): (r: seq<byte>)
    requires low <= op <= |s|
    ensures |r| == |dict| + (op - low)
  {
    dict + Out(s, low, op)
  }

  /** A completed match region is what CopyMatch appends. */
  lemma RegionIsCopyMatch(now: seq<byte>, was: seq<byte>, low: nat, op: nat, e: nat, end: nat, offset: nat, length: nat)
    requires Untouched(now, was, op, end) && low <= op && e == op + length && e <= |now| && offset <= op - low
    requires MatchRegion(now, op, e, offset)
    ensures Out(now, low, e) == CopyMatch(Out(was, low, op), offset, length)
  {
    hide CopyMatch;
    var s := Out(now, low, e);
    var lo := op - low;
    forall i | lo <= i < |s|
      ensures s[i] == if offset == 0 then 0 else s[i - offset]
    {
      if offset > 0 {
        assert SameAt(now, low + i, offset);
      }
    }
    assert s[..lo] == now[..op][low..] == was[..op][low..];
    RepeatsIsCopyMatch(s, lo, offset);
  }

  lemma RegionInHistory(dict: seq<byte>, now: seq<byte>, was: seq<byte>, low: nat, op: nat, e: nat, end: nat, offset: nat, length: nat)
    requires Untouched(now, was, op, end) && low <= op && e == op + length && e <= |now| && offset <= op - low
    requires MatchRegion(now, op, e, offset)
    ensures History(dict, now, low, e) == CopyMatch(History(dict, was, low, op), offset, length)
  {
    hide CopyMatch, MatchRegion;
    RegionIsCopyMatch(now, was, low, op, e, end, offset, length);
    CopyMatchBehind(dict, Out(was, low, op), offset, length);
  }

  lemma HistoryGrows(dict: seq<byte>, now: seq<byte>, was: seq<byte>, low: nat, op: nat, end: nat, e: nat, part: seq<byte>)
    requires Untouched(now, was, op, end) && low <= op <= e <= |now| && now[op..e] == part
    ensures History(dict, now, low, e) == History(dict, was, low, op) + part
  {
    OutputGrows(now, was, low, op, end, e, part);
    Regroup(dict, Out(was, low, op), part);
  }

  lemma LiteralsInHistory(dict: seq<byte>, now: seq<byte>, was: seq<byte>, low: nat, op: nat, e: nat, oend: nat, part: seq<byte>)
    requires low <= op && e == op + |part| && e <= oend <= |was| && now == Splice(was, op, part)
    ensures Untouched(now, was, op, oend)
    ensures History(dict, now, low, e) == History(dict, was, low, op) + part
  {
    hide Untouched, Splice;
    LiteralsCopied(now, was, low, op, e, oend, part);
    Regroup(dict, Out(was, low, op), part);
  }

  // ------------------------------------------------------- safe copies

  /** From safe_match_copy on: copies the match without coming closer than 5 bytes to the end. */
  method SafeMatch(src: seq<byte>, dst: array<byte>, dict: seq<byte>, low: nat, op: nat, offset: nat, length: nat, cpy: nat, oend: nat,
                   ghost next: nat, ghost target: Option<seq<byte>>, ghost total: int)
    returns (exit: Exit)
    requires low <= op && op + 12 <= oend <= dst.Length && (total >= 0 ==> low + total <= |dict| + oend) && cpy == op + length
    requires MatchPending(src, next, offset, length, History(dict, dst[..], low, op), target, total)
    modifies dst
    ensures Untouched(dst[..], old(dst[..]), op, oend)
    ensures exit == Proceed || exit == Error
    ensures exit == Error ==> total < 0
    ensures exit == Proceed ==> op <= cpy && cpy + LASTLITERALS <= oend && Reached(src, next, History(dict, dst[..], low, cpy), target, total)
  {
    ghost var was := dst[..];
    UntouchedSame(was, op, oend);
    if offset > op - low + |dict| {
      return Error;
    }
    if offset > op - low {
      if cpy > oend - LASTLITERALS {
        return Error;
      }
      exit := DictMatch(src, dst, dict, low, op, offset, length, cpy, oend, next, target, total);
      return;
    }
    var copied := CopyMatchSafely(dst, op, op - offset, cpy, oend);
    if !copied {
      return Error;
    }
    hide MatchPending, MatchRegion, Reached, LiteralField, MatchField, Read16, History, Untouched;
    RegionInHistory(dict, dst[..], was, low, op, cpy, oend, offset, length);
    TakeMatch(src, next, offset, length, History(dict, was, low, op), target, total);
    exit := Proceed;
  }

  /** A match that starts in the dictionary, and may stretch from its end into the output. */
  method DictMatch(src: seq<byte>, dst: array<byte>, dict: seq<byte>, low: nat, op: nat, offset: nat, length: nat, cpy: nat, ghost oend: nat,
                   ghost next: nat, ghost target: Option<seq<byte>>, ghost total: int)
    returns (exit: Exit)
    requires low <= op && cpy == op + length && cpy <= oend <= dst.Length && op - low < offset <= op - low + |dict|
    requires MatchPending(src, next, offset, length, History(dict, dst[..], low, op), target, total)
    modifies dst
    ensures Untouched(dst[..], old(dst[..]), op, oend)
    ensures exit == Proceed && Reached(src, next, History(dict, dst[..], low, cpy), target, total)
  {
    ghost var was := dst[..];
    TakeMatch(src, next, offset, length, History(dict, was, low, op), target, total);
    hide MatchPending, Reached, History, Untouched;
    CopyFromDict(dst, dict, low, op, offset, length, cpy, oend);
    exit := Proceed;
  }

  method CopyFromDict(dst: array<byte>, dict: seq<byte>, low: nat, op: nat, offset: nat, length: nat, ghost cpy: nat, ghost oend: nat)
    requires low <= op && cpy == op + length && cpy <= oend <= dst.Length && op - low < offset <= op - low + |dict|
    modifies dst
    ensures Untouched(dst[..], old(dst[..]), op, oend)
    ensures History(dict, dst[..], low, cpy) == CopyMatch(History(dict, old(dst[..]), low, op), offset, length)
  {
    ghost var was := dst[..];
    var inDict := offset - (op - low);
    if length <= inDict {
      CopyPart(dst, dict, low, op, offset, |dict| - inDict, length, cpy, oend);
    } else {
      CopyAcross(dst, dict, low, op, offset, inDict, length - inDict, op + inDict, cpy, oend);
    }
    ContinuedIsCopyMatch(dict, dst[..], was, low, op, offset, length, cpy, oend);
  }

  /** The match's part that is in the dictionary. */
  method CopyPart(dst: array<byte>, dict: seq<byte>, low: nat, op: nat, offset: nat, from: nat, n: nat, ghost e: nat, ghost oend: nat)
    requires low <= op && e == op + n <= oend <= dst.Length && op - low < offset && from + n <= |dict| && from + offset == |dict| + (op - low)
    modifies dst
    ensures Untouched(dst[..], old(dst[..]), op, oend) && Continued(dict, dst[..], low, op, offset, e)
  {
    ghost var was := dst[..];
    CopyIn(dst, op, dict, from, n);
    UntouchedSplice(was, was, op, oend, op, dict[from..from + n]);
    InDictContinues(dict, dst[..], was, low, op, offset, e, from);
  }

  /** A match that stretches into both. */
  method CopyAcross(dst: array<byte>, dict: seq<byte>, low: nat, op: nat, offset: nat, inDict: nat, restSize: nat, at: nat, ghost e: nat, ghost oend: nat)
    requires low <= op && 0 < inDict <= |dict| && offset == inDict + (op - low) && at == op + inDict && e == at + restSize <= oend <= dst.Length
    modifies dst
    ensures Untouched(dst[..], old(dst[..]), op, oend) && Continued(dict, dst[..], low, op, offset, e)
  {
    ghost var was := dst[..];
    CopyPart(dst, dict, low, op, offset, |dict| - inDict, inDict, at, oend);
    ghost var mid := dst[..];
    hide Untouched, Continued, Periodic;
    CopyFromStart(dst, low, at, restSize, oend);
    UntouchedLater(dst[..], mid, was, op, at, oend);
    RestContinues(dict, dst[..], mid, low, op, offset, at, e, oend);
  }

  /** What the match has in the output itself, from its beginning: byte after byte if it reaches into
      what it writes. */
  method CopyFromStart(dst: array<byte>, low: nat, op: nat, restSize: nat, ghost oend: nat)
    requires low < op && op + restSize <= oend <= dst.Length
    modifies dst
    ensures Untouched(dst[..], old(dst[..]), op, oend)
    ensures Periodic(dst[..], op, op + restSize, op - low)
  {
    ghost var was := dst[..];
    if restSize > op - low {
      BytewiseMatch(dst, op, low, restSize, oend);
    } else {
      CopySome(dst, op, low, restSize, op, oend, was, op - low);
    }
  }

  /** Every byte of [op, e) repeats the one `offset` before it, in the output or in the dictionary. */
  ghost predicate Continued(dict: seq<byte>, s: seq<byte>, low: nat, op: nat, offset: nat, e: nat) {
    low <= op <= e <= |s| && offset <= op - low + |dict| && forall j: nat | op <= j < e :: ContinuedAt(dict, s, low, offset, j)
  }

  ghost predicate ContinuedAt(dict: seq<byte>, s: seq<byte>, low: nat, offset: nat, j: nat) {
    && low <= j < |s| && 0 < offset <= j - low + |dict|
    && s[j] == if offset <= j - low then s[j - offset] else dict[|dict| + (j - low) - offset]
  }

  lemma InDictContinues(dict: seq<byte>, now: seq<byte>, was: seq<byte>, low: nat, op: nat, offset: nat, e: nat, from: nat)
    requires low <= op <= e <= |was| && op - low < offset && from + offset == |dict| + (op - low) && from + (e - op) <= |dict|
    requires now == Splice(was, op, dict[from..from + (e - op)])
    ensures Continued(dict, now, low, op, offset, e)
  {
    var part := dict[from..from + (e - op)];
    forall j: nat | op <= j < e ensures ContinuedAt(dict, now, low, offset, j) {
      assert now[j] == part[j - op];
    }
  }

  lemma RestContinues(dict: seq<byte>, now: seq<byte>, mid: seq<byte>, low: nat, op: nat, offset: nat, at: nat, e: nat, oend: nat)
    requires Continued(dict, mid, low, op, offset, at) && Untouched(now, mid, at, oend) && at - low == offset && at <= e
    requires Periodic(now, at, e, offset)
    ensures Continued(dict, now, low, op, offset, e)
  {
    forall j: nat | op <= j < e ensures ContinuedAt(dict, now, low, offset, j) {
      if j < at {
        assert ContinuedAt(dict, mid, low, offset, j);
        assert now[j] == now[..at][j] == mid[..at][j];
      } else {
        assert SameAt(now, j, offset);
      }
    }
  }

  lemma ContinuedIsCopyMatch(dict: seq<byte>, now: seq<byte>, was: seq<byte>, low: nat, op: nat, offset: nat, length: nat, e: nat, oend: nat)
    requires Continued(dict, now, low, op, offset, e) && Untouched(now, was, op, oend) && e == op + length && 0 < offset
    ensures History(dict, now, low, e) == CopyMatch(History(dict, was, low, op), offset, length)
  {
    hide CopyMatch;
    var s, lo := History(dict, now, low, e), |dict| + (op - low);
    forall i | lo <= i < |s| ensures s[i] == s[i - offset] {
      var j: nat := low + (i - |dict|);
      assert ContinuedAt(dict, now, low, offset, j);
    }
    assert Out(now, low, op) == now[..op][low..] == was[..op][low..];
    assert s[..lo] == dict + Out(now, low, op);
    RepeatsIsCopyMatch(s, lo, offset);
  }

  /** The copy itself; refuses a match that would end in the last five bytes. */
  method CopyMatchSafely(dst: array<byte>, op: nat, match_: nat, cpy: nat, oend: nat) returns (ok: bool)
    requires match_ <= op && op - match_ <= op && op + 4 <= cpy && op + 12 <= oend <= dst.Length
    modifies dst
    ensures Untouched(dst[..], old(dst[..]), op, oend)
    ensures ok == (cpy <= oend - LASTLITERALS)
    ensures ok ==> MatchRegion(dst[..], op, cpy, op - match_)
  {
    ghost var was := dst[..];
    ghost var lo, p, k;
    var next;
    next, lo, p, k := FirstEight(dst, op, match_, oend);
    ghost var mid := dst[..];
    hide Periodic, Zeros;
    if cpy > oend - MATCH_SAFEGUARD_DISTANCE {
      if cpy > oend - LASTLITERALS {
        return false;
      }
      CopyNearEnd(dst, op + 8, next, cpy, oend, lo, p, k);
    } else {
      CopyRest(dst, op + 8, next, cpy, cpy - op, oend, lo, p, k);
    }
    MatchComplete(dst[..], mid, was, op, op - match_, next, lo, p, k, cpy, oend);
    ok := true;
  }

  lemma MatchComplete(now: seq<byte>, mid: seq<byte>, was: seq<byte>, op: nat, offset: nat, next: nat,
                      lo: nat, p: nat, k: nat, cpy: nat, oend: nat)
    requires Continues(mid, op, offset, next, lo, p, k)
    requires Untouched(mid, was, op, oend) && Untouched(now, mid, op + 8, oend) && op <= cpy <= oend
    requires cpy > op + 8 ==> Periodic(now, lo, cpy, p)
    ensures Untouched(now, was, op, oend) && MatchRegion(now, op, cpy, offset)
  {
    hide Periodic, Zeros;
    assert now[..op + 8] == mid[..op + 8];
    UntouchedWider(now, mid, op + 8, oend, op, oend);
    UntouchedTwice(was, mid, now, op, oend);
    if cpy > op + 8 {
      RegionComplete(now, mid, op, offset, next, lo, p, k, cpy);
    } else {
      RegionOfContinues(mid, op, offset, next, lo, p, k);
      RegionKept(now, mid, op, offset, op + 8);
      RegionShrinks(now, op, offset, op + 8, cpy);
    }
  }

  /** Close to the end of the output: wild copies up to oend - 7, then single bytes. */
  method CopyNearEnd(dst: array<byte>, op0: nat, match0: nat, cpy: nat, oend: nat, ghost lo: nat, ghost p: nat, ghost k: nat)
    requires match0 <= op0 && op0 - match0 == k * p && k >= 1 && 8 <= k * p && lo - p + k * p <= op0
    requires op0 <= oend && oend - 12 < cpy <= oend - 5 && oend <= dst.Length
    requires Periodic(dst[..], lo, op0, p)
    modifies dst
    ensures Untouched(dst[..], old(dst[..]), op0, oend)
    ensures cpy > op0 ==> Periodic(dst[..], lo, cpy, p)
  {
    ghost var was := dst[..];
    var op, match_ := op0, match0;
    var oCopyLimit := oend - 7;
    if op < oCopyLimit {
      WildCopy8(dst, op, match_, oCopyLimit, lo, p, k, oend);
      match_ := match_ + (oCopyLimit - op);
      op := oCopyLimit;
    }
    while op < cpy
      invariant op0 <= op <= oend && match_ <= op && op - match_ == k * p
      invariant Untouched(dst[..], was, op0, oend)
      invariant Periodic(dst[..], lo, op, p)
    {
      CopyOne(dst, op, match_, op0, oend, was, lo, p, k);
      op, match_ := op + 1, match_ + 1;
    }
    if cpy > op0 {
      PeriodicShrinks(dst[..], lo, op, cpy, p);
    }
  }

  lemma PeriodicShrinks(s: seq<byte>, lo: nat, hi: nat, hi': nat, p: nat)
    requires Periodic(s, lo, hi, p) && lo <= hi' <= hi
    ensures Periodic(s, lo, hi', p)
  {
  }

  method CopyOne(dst: array<byte>, d: nat, s: nat, ghost op0: nat, ghost end: nat, ghost was: seq<byte>,
                 ghost lo: nat, ghost p: nat, ghost k: nat)
    requires s < d && d - s == k * p && k >= 1 && lo - p + k * p <= d
    requires op0 <= d && d + 1 <= end <= dst.Length
    requires Untouched(dst[..], was, op0, end) && Periodic(dst[..], lo, d, p)
    modifies dst
    ensures Untouched(dst[..], was, op0, end) && Periodic(dst[..], lo, d + 1, p)
  {
    ghost var before := dst[..];
    CopyWithin(dst, d, s, 1);
    UntouchedSplice(before, was, op0, end, d, before[s..s + 1]);
    ExtendPeriodic(before, lo, d, 1, p, k);
  }

  /** Far from the end: eight more bytes, and wild copies for what is longer than sixteen. */
  method CopyRest(dst: array<byte>, op: nat, match_: nat, cpy: nat, length: nat, oend: nat, ghost lo: nat, ghost p: nat, ghost k: nat)
    requires match_ <= op && op - match_ == k * p && k >= 1 && 8 <= k * p && lo - p + k * p <= op
    requires op + 8 <= oend && cpy + 12 <= oend <= dst.Length && op + length == cpy + 8
    requires Periodic(dst[..], lo, op, p)
    modifies dst
    ensures Untouched(dst[..], old(dst[..]), op, oend)
    ensures cpy > op ==> Periodic(dst[..], lo, cpy, p)
  {
    ghost var was := dst[..];
    CopyWithin(dst, op, match_, 8);
    UntouchedSplice(was, was, op, oend, op, was[match_..match_ + 8]);
    ExtendPeriodic(was, lo, op, 8, p, k);
    ghost var mid := dst[..];
    if length > 16 {
      WildCopy8(dst, op + 8, match_ + 8, cpy, lo, p, k, oend);
      UntouchedWider(dst[..], mid, op + 8, oend, op, oend);
      UntouchedTwice(was, mid, dst[..], op, oend);
    } else if cpy > op {
      PeriodicShrinks(dst[..], lo, op + 8, cpy, p);
    }
  }

  // ---------------------------------------------------------- the safe loop

  /** From _copy_match on: the offset stands at ip, the literals are copied. */
  method SafeMatchStep(src: seq<byte>, dst: array<byte>, dict: seq<byte>, low: nat, ip0: nat, nibble: nat, op0: nat, oend: nat,
                       ghost target: Option<seq<byte>>, ghost total: int)
    returns (exit: Exit, ip: nat, op: nat)
    requires low <= op0 && op0 + 12 <= oend <= dst.Length && (total >= 0 ==> low + total <= |dict| + oend)
    requires nibble <= 15 && ip0 + 2 < |src| && OffsetAt(src, ip0, nibble, History(dict, dst[..], low, op0), target, total)
    modifies dst
    ensures Untouched(dst[..], old(dst[..]), op0, oend)
    ensures exit == Proceed || exit == Error
    ensures exit == Error ==> total < 0
    ensures exit == Proceed ==> op0 <= op <= oend && ip0 < ip < |src| && Reached(src, ip, History(dict, dst[..], low, op), target, total)
  {
    hide OffsetAt, Reached, LiteralField, MatchField, Read16, History, Untouched;
    var ok, offset, length;
    ok, offset, length, ip := ReadMatch(src, ip0, nibble, History(dict, dst[..], low, op0), target, total);
    op := op0 + length;
    if !ok {
      UntouchedSame(dst[..], op0, oend);
      return Error, ip, op;
    }
    exit := SafeMatch(src, dst, dict, low, op0, offset, length, op, oend, ip, target, total);
  }

  /** From safe_literal_copy on: literals of this length stand at ip. */
  method SafeLiterals(src: seq<byte>, dst: array<byte>, dict: seq<byte>, low: nat, tok: nat, ip0: nat, length: nat, op0: nat, oend: nat,
                      ghost target: Option<seq<byte>>, ghost total: int)
    returns (exit: Exit, ip: nat, op: nat)
    requires low <= op0 <= oend <= dst.Length && (total >= 0 ==> low + total <= |dict| + oend)
    requires LiteralsAt(src, tok, ip0, length, History(dict, dst[..], low, op0), target, total)
    modifies dst
    ensures Untouched(dst[..], old(dst[..]), op0, oend)
    ensures exit == Proceed || exit == Error || exit == Finished
    ensures exit == Error ==> total < 0
    ensures exit == Finished ==> op0 <= op <= oend && target == Some(History(dict, dst[..], low, op)) && (total >= 0 ==> |dict| + op == low + total)
    ensures exit == Proceed ==> op0 <= op <= oend && tok < ip < |src| && Reached(src, ip, History(dict, dst[..], low, op), target, total)
  {
    ghost var was := dst[..];
    hide Reached, LiteralField, MatchField, Read16, History, Untouched;
    ghost var out := History(dict, was, low, op0);
    var cpy, q := op0 + length, ip0 + length;
    if cpy > oend - MFLIMIT || q > |src| - (2 + 1 + LASTLITERALS) {
      if total >= 0 {
        WellFormedRoom(src, tok, ip0, length, out, target, total);
      }
      ip, op := ip0, op0;
      if q != |src| || cpy > oend {
        UntouchedSame(was, op0, oend);
        return Error, ip, op;
      }
      TakeLast(src, tok, ip0, length, out, target, total);
      hide LiteralsAt;
      CopyIn(dst, op0, src, ip0, length);
      LiteralsInHistory(dict, dst[..], was, low, op0, cpy, oend, src[ip0..q]);
      return Finished, q, cpy;
    }
    assert tok < ip0 <= q;
    TakeLiterals(src, tok, ip0, length, q, out, target, total);
    hide LiteralsAt, OffsetAt;
    WildCopyIn(dst, op0, src, ip0, cpy, 8, oend);
    ghost var mid := dst[..];
    HistoryGrows(dict, mid, was, low, op0, oend, cpy, src[ip0..q]);
    exit, ip, op := SafeMatchStep(src, dst, dict, low, q, MatchField(src[tok]), cpy, oend, target, total);
    UntouchedLater(dst[..], mid, was, op0, cpy, oend);
  }

  /** Eighteen bytes of a match that does not overlap within eight bytes. */
  method CopyEighteen(dst: array<byte>, op: nat, match_: nat, ghost oend: nat)
    requires match_ + 8 <= op && op - match_ <= op && op + 18 <= oend <= dst.Length
    modifies dst
    ensures Untouched(dst[..], old(dst[..]), op, oend)
    ensures Periodic(dst[..], op, op + 18, op - match_)
  {
    ghost var was := dst[..];
    ghost var p := op - match_;
    CopySome(dst, op, match_, 8, op, oend, was, p);
    CopySome(dst, op + 8, match_ + 8, 8, op, oend, was, p);
    CopySome(dst, op + 16, match_ + 16, 2, op, oend, was, p);
  }

  method CopySome(dst: array<byte>, d: nat, s: nat, n: nat, ghost op0: nat, ghost end: nat, ghost was: seq<byte>, ghost p: nat)
    requires s + n <= d && d - s == p && op0 <= d && p <= op0
    requires d + n <= end <= dst.Length && 0 < p
    requires Untouched(dst[..], was, op0, end) && Periodic(dst[..], op0, d, p)
    modifies dst
    ensures Untouched(dst[..], was, op0, end) && Periodic(dst[..], op0, d + n, p)
  {
    ghost var before := dst[..];
    CopyWithin(dst, d, s, n);
    UntouchedSplice(before, was, op0, end, d, before[s..s + n]);
    ExtendPeriodic(before, op0, d, n, p, 1);
  }

  /** A short match copied as eighteen bytes. */
  method ShortMatch(src: seq<byte>, dst: array<byte>, dict: seq<byte>, low: nat, op: nat, offset: nat, length: nat, cpy: nat, ghost oend: nat,
                    ghost next: nat, ghost target: Option<seq<byte>>, ghost total: int)
    requires low <= op && 8 <= offset <= op - low && length <= 18 && op + 18 <= oend <= dst.Length && cpy == op + length
    requires MatchPending(src, next, offset, length, History(dict, dst[..], low, op), target, total)
    modifies dst
    ensures Untouched(dst[..], old(dst[..]), op, oend)
    ensures Reached(src, next, History(dict, dst[..], low, cpy), target, total)
  {
    ghost var was := dst[..];
    CopyEighteen(dst, op, op - offset, oend);
    PeriodicShrinks(dst[..], op, op + 18, cpy, offset);
    TakeMatch(src, next, offset, length, History(dict, was, low, op), target, total);
    hide MatchPending, Reached, LiteralField, MatchField, Read16, History, Untouched;
    RegionInHistory(dict, dst[..], was, low, op, cpy, oend, offset, length);
  }

  /** A literal length of 0 to 14 stands in the token itself. */
  lemma ShortLiterals(src: seq<byte>, tok: nat, out: seq<byte>, target: Option<seq<byte>>, total: int)
    requires tok < |src| && LiteralField(src[tok]) != 15 && Reached(src, tok, out, target, total)
    ensures LiteralsAt(src, tok, tok + 1, LiteralField(src[tok]), out, target, total)
  {
    hide Reached, MatchAt;
  }

  /** First stage: sixteen bytes on behalf of at most fourteen literals. */
  method CopySixteenIn(src: seq<byte>, dst: array<byte>, dict: seq<byte>, low: nat, tok: nat, op0: nat, ghost oend: nat,
                       ghost target: Option<seq<byte>>, ghost total: int)
    returns (ip: nat, op: nat)
    requires low <= op0 && op0 + 16 <= oend <= dst.Length
    requires tok + 1 + 16 <= |src| && LiteralField(src[tok]) != 15
    requires Reached(src, tok, History(dict, dst[..], low, op0), target, total)
    modifies dst
    ensures Untouched(dst[..], old(dst[..]), op0, oend)
    ensures tok < ip <= tok + 15 && op0 <= op <= op0 + 14
    ensures OffsetAt(src, ip, MatchField(src[tok]), History(dict, dst[..], low, op), target, total)
  {
    ghost var was := dst[..];
    hide Reached, LiteralField, MatchField, Read16, History, Untouched;
    var length, start := LiteralField(src[tok]), tok + 1;
    ip, op := start + length, op0 + length;
    ShortLiterals(src, tok, History(dict, was, low, op0), target, total);
    TakeLiterals(src, tok, start, length, ip, History(dict, was, low, op0), target, total);
    hide OffsetAt, LiteralsAt;
    CopyIn(dst, op0, src, start, 16);
    SixteenCopied(dict, dst[..], was, low, op0, op, oend, src, start, ip);
  }

  /** Second stage: eighteen bytes for the match, or on to the point of match copying. */
  method ShortcutMatch(src: seq<byte>, dst: array<byte>, dict: seq<byte>, low: nat, ip0: nat, nibble: nat, op0: nat, oend: nat,
                       ghost target: Option<seq<byte>>, ghost total: int)
    returns (exit: Exit, ip: nat, op: nat)
    requires low <= op0 && op0 + 18 <= oend <= dst.Length && (total >= 0 ==> low + total <= |dict| + oend)
    requires nibble <= 15 && ip0 + 2 < |src| && OffsetAt(src, ip0, nibble, History(dict, dst[..], low, op0), target, total)
    modifies dst
    ensures Untouched(dst[..], old(dst[..]), op0, oend)
    ensures exit == Proceed || exit == Error
    ensures exit == Error ==> total < 0
    ensures exit == Proceed ==> op0 <= op <= oend && ip0 < ip < |src| && Reached(src, ip, History(dict, dst[..], low, op), target, total)
  {
    hide OffsetAt, Reached, LiteralField, MatchField, Read16, History, Untouched;
    var offset := Read16(src, ip0);
    if nibble != ML_MASK && offset >= 8 && op0 - offset >= low {
      var _, off, matchLength, next := ReadMatch(src, ip0, nibble, History(dict, dst[..], low, op0), target, total);
      op := op0 + matchLength;
      ShortMatch(src, dst, dict, low, op0, off, matchLength, op, oend, next, target, total);
      exit, ip := Proceed, next;
    } else {
      exit, ip, op := SafeMatchStep(src, dst, dict, low, ip0, nibble, op0, oend, target, total);
    }
  }

  /** The two-stage shortcut of the safe loop. */
  method Shortcut(src: seq<byte>, dst: array<byte>, dict: seq<byte>, low: nat, tok: nat, op0: nat, oend: nat,
                  ghost target: Option<seq<byte>>, ghost total: int)
    returns (exit: Exit, ip: nat, op: nat)
    requires low <= op0 && op0 + 32 <= oend <= dst.Length && (total >= 0 ==> low + total <= |dict| + oend)
    requires tok + 1 < |src| - 16 && LiteralField(src[tok]) != 15
    requires Reached(src, tok, History(dict, dst[..], low, op0), target, total)
    modifies dst
    ensures Untouched(dst[..], old(dst[..]), op0, oend)
    ensures exit == Proceed || exit == Error
    ensures exit == Error ==> total < 0
    ensures exit == Proceed ==> op0 <= op <= oend && tok < ip < |src| && Reached(src, ip, History(dict, dst[..], low, op), target, total)
  {
    ghost var was := dst[..];
    hide OffsetAt, Reached, LiteralField, MatchField, Read16, History, Untouched;
    ip, op := CopySixteenIn(src, dst, dict, low, tok, op0, oend, target, total);
    ghost var mid, at := dst[..], op;
    exit, ip, op := ShortcutMatch(src, dst, dict, low, ip, MatchField(src[tok]), op, oend, target, total);
    UntouchedLater(dst[..], mid, was, op0, at, oend);
  }

  lemma SixteenCopied(dict: seq<byte>, now: seq<byte>, was: seq<byte>, low: nat, op: nat, e: nat, oend: nat, src: seq<byte>, ip: nat, q: nat)
    requires low <= op && op + 16 <= oend <= |was| && ip <= q <= ip + 16 <= |src| && e - op == q - ip
    requires now == Splice(was, op, src[ip..ip + 16])
    ensures Untouched(now, was, op, oend)
    ensures History(dict, now, low, e) == History(dict, was, low, op) + src[ip..q]
  {
    var part := src[ip..ip + 16];
    LiteralsCopied(now, was, low, op, op + 16, oend, part);
    var all := Out(now, low, op + 16);
    assert Out(now, low, e) == all[..e - low];
    assert part[..q - ip] == src[ip..q];
    Regroup(dict, Out(was, low, op), src[ip..q]);
  }

  /** One iteration of the safe loop. */
  method SafeStep(src: seq<byte>, dst: array<byte>, dict: seq<byte>, low: nat, tok: nat, op0: nat, oend: nat,
                  ghost target: Option<seq<byte>>, ghost total: int)
    returns (exit: Exit, ip: nat, op: nat)
    requires low <= op0 <= oend <= dst.Length && (total >= 0 ==> low + total <= |dict| + oend)
    requires tok < |src| && Reached(src, tok, History(dict, dst[..], low, op0), target, total)
    modifies dst
    ensures Untouched(dst[..], old(dst[..]), op0, oend)
    ensures exit == Proceed || exit == Error || exit == Finished
    ensures exit == Error ==> total < 0
    ensures exit == Finished ==> op0 <= op <= oend && target == Some(History(dict, dst[..], low, op)) && (total >= 0 ==> |dict| + op == low + total)
    ensures exit == Proceed ==> op0 <= op <= oend && tok < ip < |src| && Reached(src, ip, History(dict, dst[..], low, op), target, total)
  {
    hide Reached, LiteralField, MatchField, Read16, History, Untouched;
    if LiteralField(src[tok]) != RUN_MASK && tok + 1 < |src| - 14 - 2 && op0 <= oend - 14 - 18 {
      exit, ip, op := Shortcut(src, dst, dict, low, tok, op0, oend, target, total);
    } else {
      var ok, length;
      ok, length, ip := ReadLiteralLength(src, tok, History(dict, dst[..], low, op0), target, total);
      op := op0;
      if !ok {
        UntouchedSame(dst[..], op0, oend);
        return Error, ip, op;
      }
      exit, ip, op := SafeLiterals(src, dst, dict, low, tok, ip, length, op0, oend, target, total);
    }
  }

  // ---------------------------------------------------------- the fast loop

  /** Literals of the fast loop: long ones in 32-byte stripes, short ones as sixteen bytes.  When
      they are copied, ip and op stand behind them. */
  method FastLiterals(src: seq<byte>, dst: array<byte>, dict: seq<byte>, low: nat, tok: nat, op0: nat, oend: nat,
                      ghost target: Option<seq<byte>>, ghost total: int)
    returns (exit: Exit, ip: nat, op: nat, length: nat)
    requires low <= op0 && op0 + FASTLOOP_SAFE_DISTANCE <= oend <= dst.Length && (total >= 0 ==> low + total <= |dict| + oend)
    requires tok < |src| && Reached(src, tok, History(dict, dst[..], low, op0), target, total)
    modifies dst
    ensures Untouched(dst[..], old(dst[..]), op0, oend)
    ensures exit == Proceed || exit == ToSafeLiterals || exit == Error
    ensures exit == Error ==> total < 0
    ensures op0 <= op && op + 32 <= oend
    ensures exit == ToSafeLiterals ==> LiteralsAt(src, tok, ip, length, History(dict, dst[..], low, op), target, total)
    ensures exit == Proceed ==> tok < ip && ip + 2 < |src| && OffsetAt(src, ip, MatchField(src[tok]), History(dict, dst[..], low, op), target, total)
  {
    hide Reached, OffsetAt, LiteralField, MatchField, Read16, History, Untouched;
    op := op0;
    if LiteralField(src[tok]) == RUN_MASK {
      exit, ip, op, length := FastLongLiterals(src, dst, dict, low, tok, op0, oend, target, total);
    } else {
      length, ip := LiteralField(src[tok]), tok + 1;
      if ip > |src| - (16 + 1) {
        ShortLiterals(src, tok, History(dict, dst[..], low, op), target, total);
        UntouchedSame(dst[..], op0, oend);
        return ToSafeLiterals, ip, op, length;
      }
      ip, op := CopySixteenIn(src, dst, dict, low, tok, op0, oend, target, total);
      exit := Proceed;
    }
  }

  method FastLongLiterals(src: seq<byte>, dst: array<byte>, dict: seq<byte>, low: nat, tok: nat, op0: nat, oend: nat,
                          ghost target: Option<seq<byte>>, ghost total: int)
    returns (exit: Exit, ip: nat, op: nat, length: nat)
    requires low <= op0 && op0 + FASTLOOP_SAFE_DISTANCE <= oend <= dst.Length && (total >= 0 ==> low + total <= |dict| + oend)
    requires tok < |src| && LiteralField(src[tok]) == 15 && Reached(src, tok, History(dict, dst[..], low, op0), target, total)
    modifies dst
    ensures Untouched(dst[..], old(dst[..]), op0, oend)
    ensures exit == Proceed || exit == ToSafeLiterals || exit == Error
    ensures exit == Error ==> total < 0
    ensures op0 <= op && op + 32 <= oend
    ensures exit == ToSafeLiterals ==> LiteralsAt(src, tok, ip, length, History(dict, dst[..], low, op), target, total)
    ensures exit == Proceed ==> tok < ip && ip + 2 < |src| && OffsetAt(src, ip, MatchField(src[tok]), History(dict, dst[..], low, op), target, total)
  {
    ghost var was := dst[..];
    hide Reached, OffsetAt, LiteralField, MatchField, Read16, History, Untouched;
    var ok;
    op := op0;
    UntouchedSame(was, op0, oend);
    ok, length, ip := ReadLiteralLength(src, tok, History(dict, dst[..], low, op), target, total);
    if !ok {
      return Error, ip, op, length;
    }
    var cpy, q := op0 + length, ip + length;
    if cpy > oend - 32 || q > |src| - 32 {
      return ToSafeLiterals, ip, op, length;
    }
    TakeLiterals(src, tok, ip, length, q, History(dict, was, low, op0), target, total);
    assert tok < ip;
    hide LiteralsAt;
    WildCopyIn(dst, op0, src, ip, cpy, 32, oend);
    HistoryGrows(dict, dst[..], was, low, op0, oend, cpy, src[ip..q]);
    exit, ip, op := Proceed, q, cpy;
  }

  /** The match of the fast loop; op only advances when it is copied. */
  method FastMatch(src: seq<byte>, dst: array<byte>, dict: seq<byte>, low: nat, start: nat, nibble: nat, op0: nat, oend: nat,
                   ghost target: Option<seq<byte>>, ghost total: int)
    returns (exit: Exit, ip: nat, op: nat, offset: nat, length: nat)
    requires low <= op0 && op0 + 32 <= oend <= dst.Length && (total >= 0 ==> low + total <= |dict| + oend)
    requires nibble <= 15 && start + 2 < |src| && OffsetAt(src, start, nibble, History(dict, dst[..], low, op0), target, total)
    modifies dst
    ensures Untouched(dst[..], old(dst[..]), op0, oend)
    ensures exit == Proceed || exit == ToSafeMatch || exit == Error
    ensures exit == Error ==> total < 0
    ensures op0 <= op && op + 32 <= oend
    ensures exit == ToSafeMatch ==> start < ip < |src| && MatchPending(src, ip, offset, length, History(dict, dst[..], low, op), target, total)
    ensures exit == Proceed ==>
              start < ip < |src| && op + FASTLOOP_SAFE_DISTANCE <= oend && Reached(src, ip, History(dict, dst[..], low, op), target, total)
  {
    hide OffsetAt, Reached, LiteralField, MatchField, Read16, History, Untouched;
    var ok;
    UntouchedSame(dst[..], op0, oend);
    ok, offset, length, ip := ReadMatch(src, start, nibble, History(dict, dst[..], low, op0), target, total);
    op := op0;
    if !ok {
      return Error, ip, op, offset, length;
    }
    if nibble == ML_MASK && offset > op0 - low + |dict| {
      return Error, ip, op, offset, length;
    }
    var cpy := op0 + length;
    if cpy >= oend - FASTLOOP_SAFE_DISTANCE {
      return ToSafeMatch, ip, op, offset, length;
    }
    if nibble != ML_MASK && op0 - offset >= low && offset >= 8 {
      ShortMatch(src, dst, dict, low, op0, offset, length, cpy, oend, ip, target, total);
      return Proceed, ip, cpy, offset, length;
    }
    if offset > op0 - low + |dict| {
      return Error, ip, op, offset, length;
    }
    if offset > op0 - low {
      exit := DictMatch(src, dst, dict, low, op0, offset, length, cpy, oend, ip, target, total);
      op := cpy;
      return;
    }
    FastCopy(src, dst, dict, low, op0, offset, length, cpy, oend, ip, target, total);
    exit, op := Proceed, cpy;
  }

  method FastCopy(src: seq<byte>, dst: array<byte>, dict: seq<byte>, low: nat, op: nat, offset: nat, length: nat, cpy: nat, ghost oend: nat,
                  ghost next: nat, ghost target: Option<seq<byte>>, ghost total: int)
    requires low <= op && offset <= op - low && cpy == op + length && cpy + FASTLOOP_SAFE_DISTANCE <= oend <= dst.Length
    requires MatchPending(src, next, offset, length, History(dict, dst[..], low, op), target, total)
    modifies dst
    ensures Untouched(dst[..], old(dst[..]), op, oend)
    ensures Reached(src, next, History(dict, dst[..], low, cpy), target, total)
  {
    ghost var was := dst[..];
    TakeMatch(src, next, offset, length, History(dict, was, low, op), target, total);
    assert length >= 4;
    hide MatchPending, Reached, LiteralField, MatchField, Read16, History, Untouched;
    if offset < 16 {
      CopyUsingOffset(dst, op, op - offset, cpy, oend);
    } else {
      WildCopy32(dst, op, op - offset, cpy, oend);
    }
    RegionInHistory(dict, dst[..], was, low, op, cpy, oend, offset, length);
  }

  /** One iteration of the fast loop. */
  method FastStep(src: seq<byte>, dst: array<byte>, dict: seq<byte>, low: nat, tok: nat, op0: nat, oend: nat,
                  ghost target: Option<seq<byte>>, ghost total: int)
    returns (exit: Exit, ip: nat, op: nat, offset: nat, length: nat)
    requires low <= op0 && op0 + FASTLOOP_SAFE_DISTANCE <= oend <= dst.Length && (total >= 0 ==> low + total <= |dict| + oend)
    requires tok < |src| && Reached(src, tok, History(dict, dst[..], low, op0), target, total)
    modifies dst
    ensures Untouched(dst[..], old(dst[..]), op0, oend)
    ensures exit != Finished
    ensures exit == Error ==> total < 0
    ensures op0 <= op && op + 32 <= oend
    ensures exit == ToSafeLiterals ==> LiteralsAt(src, tok, ip, length, History(dict, dst[..], low, op), target, total)
    ensures exit == ToSafeMatch ==> MatchPending(src, ip, offset, length, History(dict, dst[..], low, op), target, total)
    ensures exit == Proceed ==>
              tok < ip < |src| && op + FASTLOOP_SAFE_DISTANCE <= oend && Reached(src, ip, History(dict, dst[..], low, op), target, total)
  {
    ghost var was := dst[..];
    hide Reached, OffsetAt, LiteralsAt, MatchPending, LiteralField, MatchField, Read16, History, Untouched;
    offset := 0;
    exit, ip, op, length := FastLiterals(src, dst, dict, low, tok, op0, oend, target, total);
    if exit == Proceed {
      ghost var mid, at := dst[..], op;
      exit, ip, op, offset, length := FastMatch(src, dst, dict, low, ip, MatchField(src[tok]), op, oend, target, total);
      UntouchedLater(dst[..], mid, was, op0, at, oend);
    }
  }

  /** The fast loop: whole sequences while the output is at least 64 bytes from its end. */
  method FastLoop(src: seq<byte>, dst: array<byte>, dict: seq<byte>, low: nat, start: nat, oend: nat,
                  ghost target: Option<seq<byte>>, ghost total: int)
    returns (exit: Exit, tok: nat, ip: nat, op: nat, offset: nat, length: nat)
    requires low <= start && start + FASTLOOP_SAFE_DISTANCE <= oend <= dst.Length && (total >= 0 ==> low + total <= |dict| + oend)
    requires 0 < |src| && Reached(src, 0, History(dict, dst[..], low, start), target, total)
    modifies dst
    ensures Untouched(dst[..], old(dst[..]), start, oend)
    ensures exit == ToSafeLiterals || exit == ToSafeMatch || exit == Error
    ensures exit == Error ==> total < 0
    ensures start <= op && op + 32 <= oend
    ensures exit == ToSafeLiterals ==> LiteralsAt(src, tok, ip, length, History(dict, dst[..], low, op), target, total)
    ensures exit == ToSafeMatch ==> MatchPending(src, ip, offset, length, History(dict, dst[..], low, op), target, total)
  {
    ghost var was := dst[..];
    hide Reached, LiteralsAt, MatchPending, LiteralField, MatchField, Read16, History, Untouched;
    tok, op := 0, start;
    while true
      invariant start <= op && op + FASTLOOP_SAFE_DISTANCE <= oend && tok < |src|
      invariant Untouched(dst[..], was, start, oend)
      invariant Reached(src, tok, History(dict, dst[..], low, op), target, total)
      decreases |src| - tok
    {
      ghost var before, at := dst[..], op;
      exit, ip, op, offset, length := FastStep(src, dst, dict, low, tok, op, oend, target, total);
      UntouchedLater(dst[..], before, was, start, at, oend);
      if exit != Proceed {
        return;
      }
      tok := ip;
    }
  }

  // ---------------------------------------------------------- the decoder

  method SafeLoop(src: seq<byte>, dst: array<byte>, dict: seq<byte>, low: nat, tok0: nat, op0: nat, oend: nat,
                  ghost target: Option<seq<byte>>, ghost total: int)
    returns (exit: Exit, ip: nat, op: nat)
    requires low <= op0 <= oend <= dst.Length && (total >= 0 ==> low + total <= |dict| + oend)
    requires tok0 < |src| && Reached(src, tok0, History(dict, dst[..], low, op0), target, total)
    modifies dst
    ensures Untouched(dst[..], old(dst[..]), op0, oend)
    ensures exit == Finished || exit == Error
    ensures exit == Error ==> total < 0
    ensures exit == Finished ==> op0 <= op <= oend && target == Some(History(dict, dst[..], low, op)) && (total >= 0 ==> |dict| + op == low + total)
  {
    ghost var was := dst[..];
    hide Reached, LiteralField, MatchField, Read16, History, Untouched;
    ip, op := tok0, op0;
    while true
      invariant op0 <= op <= oend && ip < |src|
      invariant Untouched(dst[..], was, op0, oend)
      invariant Reached(src, ip, History(dict, dst[..], low, op), target, total)
      decreases |src| - ip
    {
      ghost var before, at := dst[..], op;
      exit, ip, op := SafeStep(src, dst, dict, low, ip, op, oend, target, total);
      UntouchedLater(dst[..], before, was, op0, at, oend);
      if exit != Proceed {
        return;
      }
    }
  }

  /** What the fast loop leaves over: one partly decoded sequence, then the safe loop. */
  method FastThenSafe(src: seq<byte>, dst: array<byte>, dict: seq<byte>, low: nat, start: nat, oend: nat,
                      ghost target: Option<seq<byte>>, ghost total: int)
    returns (exit: Exit, ip: nat, op: nat)
    requires low <= start && start + FASTLOOP_SAFE_DISTANCE <= oend <= dst.Length && (total >= 0 ==> low + total <= |dict| + oend)
    requires 0 < |src| && Reached(src, 0, History(dict, dst[..], low, start), target, total)
    modifies dst
    ensures Untouched(dst[..], old(dst[..]), start, oend)
    ensures exit == Finished || exit == Error
    ensures exit == Error ==> total < 0
    ensures exit == Finished ==> start <= op <= oend && target == Some(History(dict, dst[..], low, op)) && (total >= 0 ==> |dict| + op == low + total)
  {
    ghost var was := dst[..];
    hide Reached, LiteralsAt, LiteralField, MatchField, Read16, History, Untouched;
    var tok, offset, length;
    exit, tok, ip, op, offset, length := FastLoop(src, dst, dict, low, start, oend, target, total);
    ghost var mid, at := dst[..], op;
    if exit == ToSafeLiterals {
      exit, ip, op := SafeLiterals(src, dst, dict, low, tok, ip, length, op, oend, target, total);
    } else if exit == ToSafeMatch {
      assert ip < |src|;
      hide MatchPending;
      var cpy := op + length;
      exit := SafeMatch(src, dst, dict, low, op, offset, length, cpy, oend, ip, target, total);
      op := cpy;
    }
    UntouchedLater(dst[..], mid, was, start, at, oend);
    if exit == Proceed {
      ghost var before, at' := dst[..], op;
      exit, ip, op := SafeLoop(src, dst, dict, low, ip, op, oend, target, total);
      UntouchedLater(dst[..], before, was, start, at', oend);
    }
  }

  /** The total size at which src is a well-formed block after `produced` bytes, if there is one. */
  ghost function TotalOf(src: seq<byte>, produced: nat): (total: int)
    ensures total >= 0 ==> WellFormedFrom(src, 0, produced, total)
    ensures forall t: nat | WellFormedFrom(src, 0, produced, t) :: total == t
  {
    if exists t: nat :: WellFormedFrom(src, 0, produced, t) then
      var total: nat :| WellFormedFrom(src, 0, produced, total);
      assert forall t: nat | WellFormedFrom(src, 0, produced, t) :: total == t by {
        forall t: nat | WellFormedFrom(src, 0, produced, t)
          ensures total == t
        {
          WellFormedUnique(src, 0, produced, total, t);
        }
      }
      total
    else -1
  }

  /** LZ4_decompress_generic: decodes src into dst[start..start + outputSize], after the prefix
      Out(dst[..], low, start) and, before that, an external dictionary that lies elsewhere.
      Everything else of dst stays as it was. */
  method DecompressGeneric(src: seq<byte>, dst: array<byte>, dict: seq<byte>, low: nat, start: nat, outputSize: nat) returns (r: int)
    requires low <= start && start + outputSize <= dst.Length
    modifies dst
    ensures Untouched(dst[..], old(dst[..]), start, start + outputSize)
    ensures r <= outputSize
    ensures r >= 0 ==> DecodeFrom(src, 0, History(dict, old(dst[..]), low, start)) == Some(History(dict, dst[..], low, start + r))
    ensures var total := TotalOf(src, |dict| + (start - low));
            0 <= total && low + total <= |dict| + (start + outputSize) && (outputSize > 0 || src == [0]) ==> low + total == |dict| + (start + r)
    ensures src == [] ==> r < 0 && dst[..] == old(dst[..])
  {
    ghost var before := History(dict, dst[..], low, start);
    if outputSize == 0 {
      if src == [0] {
        EmptyBlock(before);
        return 0;
      }
      return -1;
    }
    if |src| == 0 {
      return -1;
    }
    ghost var target := DecodeFrom(src, 0, before);
    ghost var total := TotalOf(src, |before|);
    if low + total > |dict| + (start + outputSize) {
      total := -1;
    }
    var oend := start + outputSize;
    var exit, ip, op;
    hide WellFormedFrom, DecodeFrom, History;
    if outputSize >= FASTLOOP_SAFE_DISTANCE {
      exit, ip, op := FastThenSafe(src, dst, dict, low, start, oend, target, total);
    } else {
      exit, ip, op := SafeLoop(src, dst, dict, low, 0, start, oend, target, total);
    }
    if exit == Error {
      return -(ip as int) - 1;
    }
    r := op - start;
  }

  /** LZ4_decompress_safe_usingDict, in one memory: a dictionary that ends where the output starts is a
      prefix, any other one is external. */
  method DecompressUsingDict(src: seq<byte>, memory: array<byte>, dest: nat, maxOutputSize: nat, dictStart: nat, dictSize: nat) returns (r: int)
    requires dest + maxOutputSize <= memory.Length && dictStart + dictSize <= memory.Length
    requires dictSize > 0 ==> dictStart + dictSize <= dest || dest + maxOutputSize <= dictStart
    modifies memory
    ensures Untouched(memory[..], old(memory[..]), dest, dest + maxOutputSize)
    ensures r <= maxOutputSize
    ensures r >= 0 ==> DecodeFrom(src, 0, old(memory[dictStart..dictStart + dictSize])) == Some(old(memory[dictStart..dictStart + dictSize]) + memory[dest..dest + r])
    ensures var total := TotalOf(src, dictSize);
            0 <= total <= dictSize + maxOutputSize && (maxOutputSize > 0 || src == [0]) ==> total == dictSize + r
  {
    hide DecodeFrom, WellFormedFrom, Untouched, History;
    ghost var was, dict := memory[..], memory[dictStart..dictStart + dictSize];
    var low, external := dest, [];
    if dictSize != 0 {
      if dictStart + dictSize == dest {
        low := dictStart;
      } else {
        external := memory[dictStart..dictStart + dictSize];
      }
    }
    assert external + memory[low..dest] == dict;
    r := DecompressGeneric(src, memory, external, low, dest, maxOutputSize);
    InFrontOf(memory[..], was, external, low, dest, if r < 0 then dest else dest + r, dest + maxOutputSize, dict);
  }

  lemma InFrontOf(now: seq<byte>, was: seq<byte>, dict: seq<byte>, low: nat, dest: nat, e: nat, end: nat, front: seq<byte>)
    requires low <= dest <= e <= end && Untouched(now, was, dest, end) && front == dict + was[low..dest]
    ensures History(dict, was, low, dest) == front
    ensures History(dict, now, low, e) == front + now[dest..e]
  {
    assert now[low..dest] == now[..dest][low..] == was[..dest][low..];
    SliceJoin(now, low, dest, e);
    Regroup(dict, was[low..dest], now[dest..e]);
  }

  lemma EmptyBlock(prefix: seq<byte>)
    ensures DecodeFrom([0], 0, prefix) == Some(prefix)
    ensures forall total: nat | WellFormedFrom([0], 0, |prefix|, total) :: total == |prefix|
  {
    assert ItemAt([0], 0) == Final(1, 0);
    assert prefix + [0 as byte][1..1] == prefix;
  }

  // ------------------------------------------- the decoder without checks

  /** read_long_length_no_check. */
  method ReadLongLength(src: seq<byte>, start: nat) returns (length: nat, ip: nat)
    requires ExtAt(src, start).Some?
    ensures ExtAt(src, start) == Some((length, ip))
  {
    ip, length := start, 0;
    while true
      invariant start <= ip < |src| && ExtAt(src, ip).Some?
      invariant ExtAt(src, start) == Some((length + ExtAt(src, ip).value.0, ExtAt(src, ip).value.1))
      decreases |src| - ip
    {
      var b := src[ip];
      ip := ip + 1;
      length := length + b;
      if b != 255 {
        return;
      }
    }
  }

  /** The token and the literals of a sequence of a well-formed block. */
  method UnsafeLiterals(src: seq<byte>, dst: array<byte>, low: nat, tok: nat, op0: nat, oend: nat,
                        ghost target: Option<seq<byte>>, ghost total: nat)
    returns (ip: nat, op: nat)
    requires low + total == oend && low <= op0 <= oend <= dst.Length && tok < |src|
    requires Reached(src, tok, Out(dst[..], low, op0), target, total)
    modifies dst
    ensures Untouched(dst[..], old(dst[..]), op0, oend) && op0 <= op <= oend && tok < ip <= |src|
    ensures ip == |src| ==> op == oend && target == Some(Out(dst[..], low, op))
    ensures ip < |src| ==> op + MFLIMIT <= oend && ip + 2 < |src| &&
                           OffsetAt(src, ip, MatchField(src[tok]), Out(dst[..], low, op), target, total)
  {
    ghost var was := dst[..];
    hide Reached, LiteralField, MatchField, Read16, Out, Untouched, LiteralsAt, OffsetAt;
    ghost var out := Out(was, low, op0);
    var length, start := UnsafeLiteralLength(src, tok, out, target, total);
    ip, op := start + length, op0 + length;
    LiteralsRead(src, tok, start, length, ip, out, target, total);
    CopyIn(dst, op0, src, start, length);
    LiteralsCopied(dst[..], was, low, op0, op, oend, src[start..ip]);
  }

  /** What stands behind the literals: the block's end, or an offset. */
  lemma LiteralsRead(src: seq<byte>, tok: nat, start: nat, length: nat, q: nat, out: seq<byte>, target: Option<seq<byte>>, total: nat)
    requires LiteralsAt(src, tok, start, length, out, target, total) && q == start + length
    ensures tok < start <= q <= |src|
    ensures q == |src| ==> |out| + length == total && target == Some(out + src[start..q])
    ensures q < |src| ==> q + 2 < |src| && |out| + length + MFLIMIT <= total && OffsetAt(src, q, MatchField(src[tok]), out + src[start..q], target, total)
  {
    hide Reached, LiteralField, MatchField, OffsetAt;
    WellFormedRoom(src, tok, start, length, out, target, total);
    if q == |src| {
      TakeLast(src, tok, start, length, out, target, total);
    } else {
      TakeLiterals(src, tok, start, length, q, out, target, total);
    }
  }

  method UnsafeLiteralLength(src: seq<byte>, tok: nat, ghost out: seq<byte>, ghost target: Option<seq<byte>>, ghost total: nat)
    returns (length: nat, ip: nat)
    requires tok < |src| && Reached(src, tok, out, target, total)
    ensures LiteralsAt(src, tok, ip, length, out, target, total)
  {
    length, ip := LiteralField(src[tok]), tok + 1;
    if length == 15 {
      LongLiteralsFit(src, tok, out, total);
      var more;
      more, ip := ReadLongLength(src, ip);
      length := length + more;
    }
  }

  method UnsafeMatch(src: seq<byte>, dst: array<byte>, low: nat, start: nat, nibble: nat, op0: nat, oend: nat,
                     ghost target: Option<seq<byte>>, ghost total: nat)
    returns (ip: nat, op: nat)
    requires low + total == oend && low <= op0 <= oend <= dst.Length && nibble <= 15 && start + 2 < |src|
    requires OffsetAt(src, start, nibble, Out(dst[..], low, op0), target, total)
    modifies dst
    ensures Untouched(dst[..], old(dst[..]), op0, oend)
    ensures start < ip < |src| && op0 <= op && op + LASTLITERALS <= oend
    ensures Reached(src, ip, Out(dst[..], low, op), target, total)
  {
    ghost var was := dst[..];
    var offset := Read16(src, start);
    ghost var out := Out(was, low, op0);
    hide OffsetAt, Reached, LiteralField, MatchField, Read16, Out, Untouched;
    var length;
    length, ip := UnsafeMatchLength(src, start, nibble, offset, out, target, total);
    TakeMatch(src, ip, offset, length, out, target, total);
    op := op0 + length;
    hide MatchPending;
    BytewiseMatch(dst, op0, op0 - offset, length, oend);
    RegionIsCopyMatch(dst[..], was, low, op0, op, oend, offset, length);
  }

  method UnsafeMatchLength(src: seq<byte>, start: nat, nibble: nat, offset: nat, ghost out: seq<byte>, ghost target: Option<seq<byte>>, ghost total: nat)
    returns (length: nat, ip: nat)
    requires nibble <= 15 && start + 2 < |src| && OffsetAt(src, start, nibble, out, target, total) && offset == Read16(src, start)
    ensures start < ip < |src| && MatchPending(src, ip, offset, length, out, target, total)
    ensures 1 <= offset <= |out| && |out| + length + LASTLITERALS <= total
  {
    hide Read16;
    length, ip := nibble, start + 2;
    if length == 15 {
      var more;
      more, ip := ReadLongLength(src, ip);
      length := length + more;
    }
    length := length + MINMATCH;
  }

  /** The slow copy: one byte after the other, so that overlap repeats the pattern. */
  method BytewiseMatch(dst: array<byte>, op: nat, match_: nat, length: nat, ghost end: nat)
    requires match_ < op && op - match_ <= op && op + length <= end <= dst.Length
    modifies dst
    ensures Untouched(dst[..], old(dst[..]), op, end)
    ensures MatchRegion(dst[..], op, op + length, op - match_)
  {
    ghost var was := dst[..];
    var u := 0;
    while u < length
      invariant u <= length
      invariant Untouched(dst[..], was, op, end)
      invariant Periodic(dst[..], op, op + u, op - match_)
    {
      CopyOne(dst, op + u, match_ + u, op, end, was, op, op - match_, 1);
      u := u + 1;
    }
  }

  /** One sequence of the decoder without checks; the last one only has literals. */
  method UnsafeStep(src: seq<byte>, dst: array<byte>, low: nat, tok: nat, op0: nat, oend: nat, ghost target: Option<seq<byte>>, ghost total: nat)
    returns (exit: Exit, ip: nat, op: nat)
    requires low + total == oend && low <= op0 <= oend <= dst.Length && tok < |src|
    requires Reached(src, tok, Out(dst[..], low, op0), target, total)
    modifies dst
    ensures Untouched(dst[..], old(dst[..]), op0, oend)
    ensures exit == Proceed || exit == Finished
    ensures exit == Finished ==> op == oend && ip == |src| && target == Some(Out(dst[..], low, op))
    ensures exit == Proceed ==> op0 <= op <= oend && tok < ip < |src| && Reached(src, ip, Out(dst[..], low, op), target, total)
  {
    ghost var was := dst[..];
    hide Reached, OffsetAt, LiteralField, MatchField, Read16, Out, Untouched;
    ip, op := UnsafeLiterals(src, dst, low, tok, op0, oend, target, total);
    if oend - op < MFLIMIT {
      if op == oend {
        return Finished, ip, op;
      }
      return Error, ip, op;
    }
    ghost var mid, at := dst[..], op;
    ip, op := UnsafeMatch(src, dst, low, ip, MatchField(src[tok]), op, oend, target, total);
    UntouchedLater(dst[..], mid, was, op0, at, oend);
    if oend - op < LASTLITERALS {
      return Error, ip, op;
    }
    exit := Proceed;
  }

  method UnsafeLoop(src: seq<byte>, dst: array<byte>, low: nat, start: nat, oend: nat, ghost target: Option<seq<byte>>, ghost total: nat)
    returns (ip: nat)
    requires low + total == oend && low <= start <= oend <= dst.Length && 0 < |src|
    requires Reached(src, 0, Out(dst[..], low, start), target, total)
    modifies dst
    ensures Untouched(dst[..], old(dst[..]), start, oend)
    ensures ip == |src| && target == Some(Out(dst[..], low, oend))
  {
    ghost var was := dst[..];
    hide Reached, WellFormedFrom, DecodeFrom, Out, Untouched;
    UntouchedSame(was, start, oend);
    ip := 0;
    var op := start;
    while true
      invariant start <= op <= oend && ip < |src|
      invariant Untouched(dst[..], was, start, oend)
      invariant Reached(src, ip, Out(dst[..], low, op), target, total)
      decreases |src| - ip
    {
      ghost var before, at := dst[..], op;
      var exit;
      exit, ip, op := UnsafeStep(src, dst, low, ip, op, oend, target, total);
      UntouchedLater(dst[..], before, was, start, at, oend);
      if exit == Finished {
        return;
      }
    }
  }

  /** LZ4_decompress_unsafe_generic, without an external dictionary: it presumes a well-formed
      block that fills the output exactly, reads all of it and writes its meaning. */
  method DecompressUnsafe(src: seq<byte>, dst: array<byte>, low: nat, start: nat, decompressedSize: nat) returns (r: int)
    requires low <= start && start + decompressedSize <= dst.Length
    requires WellFormedFrom(src, 0, start - low, start - low + decompressedSize)
    modifies dst
    ensures Untouched(dst[..], old(dst[..]), start, start + decompressedSize)
    ensures r == |src|
    ensures DecodeFrom(src, 0, Out(old(dst[..]), low, start)) == Some(Out(dst[..], low, start + decompressedSize))
  {
    ghost var out := Out(dst[..], low, start);
    ghost var total := |out| + decompressedSize;
    UnsafeStart(src, out, total);
    hide DecodeFrom, WellFormedFrom, Reached, Out;
    r := UnsafeLoop(src, dst, low, start, start + decompressedSize, DecodeFrom(src, 0, out), total);
  }

  lemma UnsafeStart(src: seq<byte>, out: seq<byte>, total: nat)
    requires WellFormedFrom(src, 0, |out|, total)
    ensures |src| > 0 && Reached(src, 0, out, DecodeFrom(src, 0, out), total)
  {
    hide DecodeFrom;
  }
}
