/** LZ4HC_compress_hashChain: the lazy parser, which holds back up to three overlapping matches and
    trims them before it encodes the first. The labels of the original are the two states here. */
module Lz4HcLazy {
  import opened Lz4Block
  import opened Lz4Copy
  import opened Lz4Emit
  import opened Lz4Compress
  import opened Lz4HcMatch
  import opened Lz4HcEmit

  const OPTIMAL_ML := 18

  // ------------------------------------------------ the states of the parser

  /** At _Search2: m1 is to be encoded next, m0 is the match it replaced (or m1 itself). Positions
      up to `seen` have been searched. */
  ghost predicate At2(src: seq<byte>, anchor: nat, seen: nat, m0: Match, m1: Match) {
    && Encodable(src, m0) && Encodable(src, m1)
    && anchor <= m0.start <= m1.start <= m0.start + 2
    && (m0 == m1 || End(m0) + MFLIMIT <= |src|)
    && seen + MINMATCH <= End(m1)
  }

  /** At _Search3: m1 and then m2 are to be encoded, possibly trimmed. */
  ghost predicate At3(src: seq<byte>, anchor: nat, seen: nat, m1: Match, m2: Match) {
    && Encodable(src, m1) && Encodable(src, m2)
    && anchor <= m1.start && m1.start + 2 <= m2.start
    && m2.start + m2.len >= m1.start + 8
    && End(m1) + MFLIMIT <= |src|
    && m2.start <= End(m1) + 1 && (m2.start > End(m1) ==> m2.len > MINMATCH)
    && seen + 4 <= End(m2)
  }

  /** Behind the first correction at _Search3: m1 keeps at least four bytes in front of m2. */
  ghost predicate Apart(src: seq<byte>, anchor: nat, seen: nat, m1: Match, m2: Match) {
    At3(src, anchor, seen, m1, m2) && m1.start + MINMATCH <= m2.start
  }

  // ---------------------------------------------------------------- trimming

  /** The length that m1 keeps when m2 overlaps it. */
  function KeptLength(m1: Match, m2: Match): int {
    var most := if m1.len > OPTIMAL_ML then OPTIMAL_ML else m1.len;
    if m1.start + most > m2.start + m2.len - MINMATCH then m2.start - m1.start + m2.len - MINMATCH else most
  }

  /** The start of m2 moves behind the part of m1 that is kept. */
  function Corrected(m1: Match, m2: Match): (m: Match)
    requires m1.start <= m2.start
  {
    var correction := KeptLength(m1, m2) - (m2.start - m1.start);
    if m2.start - m1.start < OPTIMAL_ML && 0 < correction <= m2.len then Shift(m2, correction) else m2
  }

  lemma EncodableShift(src: seq<byte>, m: Match, k: nat)
    requires Encodable(src, m) && k + MINMATCH <= m.len && m.start + k + MFLIMIT <= |src|
    ensures Encodable(src, Shift(m, k)) && End(Shift(m, k)) == End(m)
  {
    ShiftGood(src, m, k, |src| - LASTLITERALS);
  }

  lemma EncodableTrim(src: seq<byte>, m: Match, n: nat)
    requires Encodable(src, m) && MINMATCH <= n <= m.len
    ensures Encodable(src, Match(m.start, n, m.offset))
  {
    TrimGood(src, m, n, |src| - LASTLITERALS);
  }

  lemma EncodableFacts(src: seq<byte>, m: Match)
    requires Encodable(src, m)
    ensures m.start + MFLIMIT <= |src| && m.len >= MINMATCH && End(m) + LASTLITERALS <= |src|
  {
  }

  /** The first correction at _Search3. */
  lemma CorrectedApart(src: seq<byte>, anchor: nat, seen: nat, m1: Match, m2: Match)
    requires At3(src, anchor, seen, m1, m2)
    ensures Apart(src, anchor, seen, m1, Corrected(m1, m2)) && End(Corrected(m1, m2)) == End(m2)
  {
    EncodableFacts(src, m1);
    EncodableFacts(src, m2);
    var correction := KeptLength(m1, m2) - (m2.start - m1.start);
    if m2.start - m1.start < OPTIMAL_ML && correction > 0 {
      EncodableShift(src, m2, correction);
    }
    hide Encodable;
  }

  /** A longer match from the finder can be encoded. */
  lemma FoundEncodable(src: seq<byte>, m: Match, low: nat, ip: nat)
    requires ip + MFLIMIT <= |src| && Found(src, m, low, ip, |src| - LASTLITERALS) && m.len >= MINMATCH
    ensures Encodable(src, m) && low <= m.start <= ip && ip + MINMATCH <= End(m)
  {
  }

  // ----------------------------------------------------------------- _Search2

  datatype Decision2 =
    | EncodeFirst
    | Again2(next: Match)
    | To3(first: Match, second: Match)

  /** What is decided once the wider match m2 is known. */
  function Decide2(m0: Match, m1: Match, m2: Match): Decision2
    requires m1.start <= m2.start && m0.start <= m1.start
  {
    if m2.len == m1.len then EncodeFirst else
      var first := if m0.start < m1.start && m2.start < m1.start + m0.len then m0 else m1;
      if m2.start - first.start < 3 then Again2(m2) else To3(first, m2)
  }

  lemma Decided2(src: seq<byte>, anchor: nat, seen: nat, m0: Match, m1: Match, m2: Match)
    requires At2(src, anchor, seen, m0, m1) && End(m1) + MFLIMIT <= |src|
    requires m2.len > m1.len && Found(src, m2, m1.start, End(m1) - 2, |src| - LASTLITERALS)
    ensures match Decide2(m0, m1, m2)
      case EncodeFirst => false
      case Again2(next) => At2(src, anchor, End(m1) - 2, m0, next)
      case To3(first, second) => At3(src, anchor, End(m1) - 2, first, second) && m0.start <= first.start
  {
    EncodableFacts(src, m0);
    EncodableFacts(src, m1);
    FoundEncodable(src, m2, m1.start, End(m1) - 2);
    hide Encodable, Found;
  }

  // ----------------------------------------------------------------- _Search3

  datatype Decision3 =
    | EncodeTwo(first: Match, second: Match)
    | FirstThen2(first: Match, replaced: Match, next: Match)
    | Again3(first: Match, second: Match)
    | FirstThen3(first: Match, next: Match, second: Match)

  /** What is decided once the wider match m3 is known; m2 is corrected already. */
  function Decide3(m1: Match, m2: Match, m3: Match): Decision3
    requires m1.start <= m2.start <= m3.start
  {
    if m3.len == m2.len then
      EncodeTwo(if m2.start < End(m1) then Match(m1.start, m2.start - m1.start, m1.offset) else m1, m2)
    else if m3.start < End(m1) + 3 then
      if m3.start >= End(m1) then FirstThen2(m1, Replaced(m1, m2, m3), m3) else Again3(m1, m3)
    else
      var first := Narrowed(m1, m2);
      FirstThen3(first, if m2.start < End(m1) then Corrected(m1, m2) else m2, m3)
  }

  /** What is left of m2 behind m1, if that is still a match; else m3. */
  function Replaced(m1: Match, m2: Match, m3: Match): Match {
    if m2.start < End(m1) then
      var correction := End(m1) - m2.start;
      if m2.len - correction < MINMATCH then m3 else Shift(m2, correction)
    else m2
  }

  /** m1 as it is encoded when three matches ascend. */
  function Narrowed(m1: Match, m2: Match): Match
    requires m1.start <= m2.start
  {
    if m2.start < End(m1) then
      if m2.start - m1.start < OPTIMAL_ML then
        var n := KeptLength(m1, m2);
        Match(m1.start, if n >= 0 then n else 0, m1.offset)
      else Match(m1.start, m2.start - m1.start, m1.offset)
    else m1
  }

  /** No wider match: m1 in front of m2, then m2. */
  ghost predicate TwoOk(src: seq<byte>, anchor: nat, first: Match, second: Match) {
    Encodable(src, first) && Encodable(src, second) && anchor <= first.start && End(first) <= second.start
  }

  lemma DecidedTwo(src: seq<byte>, anchor: nat, seen: nat, m1: Match, m2: Match, m3: Match)
    requires Apart(src, anchor, seen, m1, m2) && m3.len == m2.len && m2.start <= m3.start
    ensures Decide3(m1, m2, m3).EncodeTwo? && Decide3(m1, m2, m3).second == m2
    ensures TwoOk(src, anchor, Decide3(m1, m2, m3).first, m2) && Decide3(m1, m2, m3).first.start == m1.start
  {
    EncodableFacts(src, m1);
    if m2.start < End(m1) { EncodableTrim(src, m1, m2.start - m1.start); }
    hide Encodable;
  }

  /** m1 is encoded and what follows it is a state again. */
  ghost predicate FirstOk(src: seq<byte>, anchor: nat, first: Match, from: Match) {
    Encodable(src, first) && anchor <= first.start == from.start
  }

  lemma DecidedReplace(src: seq<byte>, anchor: nat, seen: nat, m1: Match, m2: Match, m3: Match)
    requires Apart(src, anchor, seen, m1, m2) && End(m2) + MFLIMIT <= |src|
    requires m3.len > m2.len && Found(src, m3, m2.start, End(m2) - 3, |src| - LASTLITERALS)
    requires End(m1) <= m3.start < End(m1) + 3
    ensures FirstOk(src, anchor, m1, m1)
    ensures At2(src, End(m1), End(m2) - 3, Replaced(m1, m2, m3), m3)
  {
    EncodableFacts(src, m1);
    EncodableFacts(src, m2);
    FoundEncodable(src, m3, m2.start, End(m2) - 3);
    if m2.start < End(m1) {
      var correction := End(m1) - m2.start;
      if m2.len - correction >= MINMATCH { EncodableShift(src, m2, correction); }
    }
    hide Encodable, Found;
  }

  lemma DecidedAgain(src: seq<byte>, anchor: nat, seen: nat, m1: Match, m2: Match, m3: Match)
    requires Apart(src, anchor, seen, m1, m2) && End(m2) + MFLIMIT <= |src|
    requires m3.len > m2.len && Found(src, m3, m2.start, End(m2) - 3, |src| - LASTLITERALS)
    requires m3.start < End(m1)
    ensures At3(src, anchor, End(m2) - 3, m1, m3)
  {
    EncodableFacts(src, m1);
    EncodableFacts(src, m2);
    FoundEncodable(src, m3, m2.start, End(m2) - 3);
    hide Encodable, Found;
  }

  lemma DecidedThree(src: seq<byte>, anchor: nat, seen: nat, m1: Match, m2: Match, m3: Match)
    requires Apart(src, anchor, seen, m1, m2) && End(m2) + MFLIMIT <= |src|
    requires m3.len > m2.len && Found(src, m3, m2.start, End(m2) - 3, |src| - LASTLITERALS)
    requires m3.start >= End(m1) + 3
    ensures var next := if m2.start < End(m1) then Corrected(m1, m2) else m2;
      && FirstOk(src, anchor, Narrowed(m1, m2), m1)
      && At3(src, End(Narrowed(m1, m2)), End(m2) - 3, next, m3)
  {
    EncodableFacts(src, m1);
    EncodableFacts(src, m2);
    FoundEncodable(src, m3, m2.start, End(m2) - 3);
    if m2.start < End(m1) {
      CorrectedApart(src, anchor, seen, m1, m2);
      EncodableTrim(src, m1, if m2.start - m1.start < OPTIMAL_ML then KeptLength(m1, m2) else m2.start - m1.start);
    }
    hide Encodable, Found;
  }

  // ------------------------------------------------------------ the searches

  /** How hard the finder tries. */
  datatype Effort = Effort(attempts: nat, patternAnalysis: bool)

  /** LZ4HC_InsertAndFindBestMatch: a match that starts at ip. */
  method FindBest(ctx: Tables, src: seq<byte>, ip: nat, effort: Effort, hash: seq<byte> -> nat, ghost seen: nat) returns (m: Match)
    requires ctx.Ready(seen) && seen <= ip && ip + MFLIMIT <= |src|
    modifies ctx`nextToUpdate, ctx.hashTable, ctx.chainTable
    ensures ctx.Ready(ip)
    ensures m.len >= MINMATCH ==> m.start == ip && Encodable(src, m)
    ensures ip == 0 ==> m.len < MINMATCH
    ensures AllSame(src) && ip == 1 && seen == 0 && effort.attempts > 0 ==> m == RunMatch(src)
  {
    m := ctx.GetWiderMatch(src, ip, ip, MINMATCH - 1, hash, effort.attempts, effort.patternAnalysis, false, false, seen);
    if m.len >= MINMATCH { FoundEncodable(src, m, ip, ip); }
  }

  /** From _Search2 to the decision. */
  method Search2(ctx: Tables, src: seq<byte>, m0: Match, m1: Match, effort: Effort, hash: seq<byte> -> nat, ghost anchor: nat, ghost seen: nat)
    returns (d: Decision2, ghost seen': nat)
    requires ctx.Ready(seen) && At2(src, anchor, seen, m0, m1)
    modifies ctx`nextToUpdate, ctx.hashTable, ctx.chainTable
    ensures ctx.Ready(seen') && seen <= seen' && seen' + 2 <= End(m1)
    ensures match d
      case EncodeFirst => true
      case Again2(next) => At2(src, anchor, seen', m0, next) && seen < seen'
      case To3(first, second) => At3(src, anchor, seen', first, second) && m0.start <= first.start && seen < seen'
    ensures End(m1) + MFLIMIT > |src| ==> d == EncodeFirst
  {
    hide Encodable, Found, Decide2;
    EncodableFacts(src, m1);
    var m2 := m1;
    seen' := seen;
    if End(m1) + MFLIMIT <= |src| {
      m2 := ctx.GetWiderMatch(src, End(m1) - 2, m1.start, m1.len, hash, effort.attempts, effort.patternAnalysis, false, false, seen);
      seen' := End(m1) - 2;
    }
    if m2.len == m1.len {
      d := EncodeFirst;
    } else {
      FoundLow(src, m2, m1.start, End(m1) - 2);
      Decided2(src, anchor, seen, m0, m1, m2);
      d := Decide2(m0, m1, m2);
    }
  }

  lemma FoundLow(src: seq<byte>, m: Match, low: nat, ip: nat)
    requires |src| >= LASTLITERALS && Found(src, m, low, ip, |src| - LASTLITERALS)
    ensures low <= m.start
  {
  }

  /** From _Search3 to the decision. */
  method Search3(ctx: Tables, src: seq<byte>, m1: Match, m20: Match, effort: Effort, hash: seq<byte> -> nat, ghost anchor: nat, ghost seen: nat)
    returns (d: Decision3, ghost seen': nat)
    requires ctx.Ready(seen) && At3(src, anchor, seen, m1, m20)
    modifies ctx`nextToUpdate, ctx.hashTable, ctx.chainTable
    ensures ctx.Ready(seen') && seen <= seen'
    ensures match d
      case EncodeTwo(first, second) => TwoOk(src, anchor, first, second) && first.start == m1.start && seen' + 3 <= End(second)
      case FirstThen2(first, replaced, next) =>
        FirstOk(src, anchor, first, m1) && At2(src, End(first), seen', replaced, next) && seen < seen'
      case Again3(first, second) => first == m1 && At3(src, anchor, seen', first, second) && seen < seen'
      case FirstThen3(first, next, second) =>
        FirstOk(src, anchor, first, m1) && At3(src, End(first), seen', next, second) && seen < seen'
  {
    hide Encodable, Found, Decide3, Corrected;
    CorrectedApart(src, anchor, seen, m1, m20);
    var m2 := Corrected(m1, m20);
    EncodableFacts(src, m2);
    var m3 := m2;
    seen' := seen;
    if End(m2) + MFLIMIT <= |src| {
      m3 := ctx.GetWiderMatch(src, End(m2) - 3, m2.start, m2.len, hash, effort.attempts, effort.patternAnalysis, false, false, seen);
      seen' := End(m2) - 3;
    }
    if m3.len > m2.len {
      FoundLow(src, m3, m2.start, End(m2) - 3);
      d := Decide3(m1, m2, m3);
      Wider3(src, anchor, seen, m1, m2, m3);
    } else {
      DecidedTwo(src, anchor, seen, m1, m2, m2);
      d := Decide3(m1, m2, m2);
    }
  }

  lemma Wider3(src: seq<byte>, anchor: nat, seen: nat, m1: Match, m2: Match, m3: Match)
    requires Apart(src, anchor, seen, m1, m2) && End(m2) + MFLIMIT <= |src|
    requires m3.len > m2.len && Found(src, m3, m2.start, End(m2) - 3, |src| - LASTLITERALS)
    ensures match Decide3(m1, m2, m3)
      case EncodeTwo(_, _) => false
      case FirstThen2(first, replaced, next) => FirstOk(src, anchor, first, m1) && At2(src, End(first), End(m2) - 3, replaced, next)
      case Again3(first, second) => first == m1 && At3(src, anchor, End(m2) - 3, first, second)
      case FirstThen3(first, next, second) => FirstOk(src, anchor, first, m1) && At3(src, End(first), End(m2) - 3, next, second)
  {
    FoundLow(src, m3, m2.start, End(m2) - 3);
    hide Found, At2, At3, FirstOk, Replaced, Corrected, Narrowed;
    if m3.start < End(m1) {
      DecidedAgain(src, anchor, seen, m1, m2, m3);
    } else if m3.start < End(m1) + 3 {
      DecidedReplace(src, anchor, seen, m1, m2, m3);
    } else {
      DecidedThree(src, anchor, seen, m1, m2, m3);
    }
  }

  // ---------------------------------------------------------------- the loop

  datatype State = Search2State(m0: Match, m1: Match) | Search3State(m1: Match, m2: Match) | Done

  /** The parser between two steps. Everything up to `from` is encoded or before what will be. */
  ghost predicate StateOk(src: seq<byte>, state: State, anchor: nat, seen: nat, from: nat) {
    match state
    case Search2State(m0, m1) => At2(src, anchor, seen, m0, m1) && from <= m0.start
    case Search3State(m1, m2) => At3(src, anchor, seen, m1, m2) && from <= m1.start
    case Done => seen <= anchor && from < anchor
  }

  /** What has been written so far, and that the end of the block is still free. */
  ghost predicate Written(out: seq<byte>, src: seq<byte>, ss: Sequences, anchor: nat) {
    Emitted(out, src, ss, anchor) && anchor <= |src| && (ss != Start ==> anchor + LASTLITERALS <= |src|)
  }

  ghost predicate OutputOk(now: seq<byte>, was: seq<byte>, t: Target, op: nat, src: seq<byte>, ss: Sequences, anchor: nat) {
    && t.dest <= op <= t.end && Untouched(now, was, t.dest, t.end)
    && t.end <= |now| && Written(Out(now, t.dest, op), src, ss, anchor)
  }

  /** The match m, behind the literals from anchor on, is the newest sequence. */
  ghost predicate Follows(src: seq<byte>, ss: Sequences, before: Sequences, anchor: nat, m: Match) {
    m.offset <= m.start && Added(src, ss, before, anchor, m.start, m.start - m.offset, End(m))
  }

  /** One sequence more. */
  method Emit(src: seq<byte>, dst: array<byte>, t: Target, token: nat, anchor: nat, m: Match, ghost ss: Sequences, ghost was: seq<byte>)
    returns (ok: bool, op: nat, ghost ss': Sequences)
    requires Roomy(t, dst, |src|) && anchor <= m.start && Encodable(src, m)
    requires OutputOk(dst[..], was, t, token, src, ss, anchor)
    modifies dst
    ensures ok || t.limited
    ensures Untouched(dst[..], was, t.dest, t.end)
    ensures ok ==> OutputOk(dst[..], was, t, op, src, ss', End(m))
    ensures ok ==> Follows(src, ss', ss, anchor, m)
    ensures ok <==> SequenceFits(t, token, m.start - anchor, m.len)
  {
    hide Encodable, Emitted, Untouched, Out, Added, SequenceFits;
    EncodableFacts(src, m);
    ghost var before := dst[..];
    ok, op, ss' := EncodeSequenceHc(src, dst, t, token, anchor, m, ss);
    UntouchedTwice(was, before, dst[..], t.dest, t.end);
  }

  lemma OutputUntouched(now: seq<byte>, was: seq<byte>, t: Target, op: nat, src: seq<byte>, ss: Sequences, anchor: nat)
    requires OutputOk(now, was, t, op, src, ss, anchor)
    ensures Untouched(now, was, t.dest, t.end)
  {
  }

  method Step2(ctx: Tables, src: seq<byte>, dst: array<byte>, t: Target, op0: nat, anchor0: nat, m0: Match, m1: Match,
               effort: Effort, hash: seq<byte> -> nat, ghost ss0: Sequences, ghost seen0: nat, ghost was: seq<byte>, ghost from: nat)
    returns (ok: bool, op: nat, anchor: nat, state: State, ghost ss: Sequences, ghost seen: nat)
    requires ctx.hashTable as object != dst as object && ctx.chainTable as object != dst as object
    requires Roomy(t, dst, |src|) && OutputOk(dst[..], was, t, op0, src, ss0, anchor0)
    requires ctx.Ready(seen0) && StateOk(src, Search2State(m0, m1), anchor0, seen0, from)
    modifies ctx`nextToUpdate, ctx.hashTable, ctx.chainTable, dst
    ensures Untouched(dst[..], was, t.dest, t.end)
    ensures ok || t.limited
    ensures ok ==> OutputOk(dst[..], was, t, op, src, ss, anchor) && ctx.Ready(seen) && StateOk(src, state, anchor, seen, from)
    ensures ok ==> state == Done || seen0 < seen
    ensures End(m1) + MFLIMIT > |src| && anchor0 <= m1.start ==> (ok <==> SequenceFits(t, op0, m1.start - anchor0, m1.len))
    ensures ok && End(m1) + MFLIMIT > |src| ==> state == Done && anchor == End(m1) && Follows(src, ss, ss0, anchor0, m1)
  {
    hide Encodable, OutputOk, Untouched, Roomy, At3, Follows, SequenceFits;
    OutputUntouched(dst[..], was, t, op0, src, ss0, anchor0);
    EncodableFacts(src, m1);
    ok, op, anchor, state, ss := true, op0, anchor0, Done, ss0;
    var d;
    d, seen := Search2(ctx, src, m0, m1, effort, hash, anchor0, seen0);
    match d
    case Again2(next) =>
      state := Search2State(m0, next);
    case To3(first, second) =>
      state := Search3State(first, second);
    case EncodeFirst =>
      ok, op, ss := Emit(src, dst, t, op, anchor, m1, ss, was);
      anchor := End(m1);
  }

  method Step3(ctx: Tables, src: seq<byte>, dst: array<byte>, t: Target, op0: nat, anchor0: nat, m1: Match, m2: Match,
               effort: Effort, hash: seq<byte> -> nat, ghost ss0: Sequences, ghost seen0: nat, ghost was: seq<byte>, ghost from: nat)
    returns (ok: bool, op: nat, anchor: nat, state: State, ghost ss: Sequences, ghost seen: nat)
    requires ctx.hashTable as object != dst as object && ctx.chainTable as object != dst as object
    requires Roomy(t, dst, |src|) && OutputOk(dst[..], was, t, op0, src, ss0, anchor0)
    requires ctx.Ready(seen0) && StateOk(src, Search3State(m1, m2), anchor0, seen0, from)
    modifies ctx`nextToUpdate, ctx.hashTable, ctx.chainTable, dst
    ensures Untouched(dst[..], was, t.dest, t.end)
    ensures ok || t.limited
    ensures ok ==> OutputOk(dst[..], was, t, op, src, ss, anchor) && ctx.Ready(seen) && StateOk(src, state, anchor, seen, from)
    ensures ok ==> state == Done || seen0 < seen
  {
    hide OutputOk, Untouched, Roomy, Encodable;
    OutputUntouched(dst[..], was, t, op0, src, ss0, anchor0);
    ok, op, anchor, state, ss := true, op0, anchor0, Done, ss0;
    var d;
    d, seen := Search3(ctx, src, m1, m2, effort, hash, anchor0, seen0);
    match d
    case Again3(first, second) =>
      state := Search3State(first, second);
    case EncodeTwo(first, second) =>
      EncodableFacts(src, first);
      EncodableFacts(src, second);
      ok, op, ss := Emit(src, dst, t, op, anchor, first, ss, was);
      if ok {
        anchor := End(first);
        ok, op, ss := Emit(src, dst, t, op, anchor, second, ss, was);
        anchor := End(second);
      }
    case FirstThen2(first, replaced, next) =>
      EncodableFacts(src, first);
      ok, op, ss := Emit(src, dst, t, op, anchor, first, ss, was);
      anchor := End(first);
      state := Search2State(replaced, next);
    case FirstThen3(first, next, second) =>
      EncodableFacts(src, first);
      ok, op, ss := Emit(src, dst, t, op, anchor, first, ss, was);
      anchor := End(first);
      state := Search3State(next, second);
  }

  /** From a found match to the end of the last sequence encoded with it. */
  method EncodeFrom(ctx: Tables, src: seq<byte>, dst: array<byte>, t: Target, op0: nat, anchor0: nat, found: Match,
                    effort: Effort, hash: seq<byte> -> nat, ghost ss0: Sequences, ghost was: seq<byte>)
    returns (ok: bool, op: nat, anchor: nat, ghost ss: Sequences, ghost seen: nat)
    requires ctx.hashTable as object != dst as object && ctx.chainTable as object != dst as object
    requires Roomy(t, dst, |src|) && OutputOk(dst[..], was, t, op0, src, ss0, anchor0) && anchor0 <= found.start
    requires ctx.Ready(found.start) && Encodable(src, found)
    modifies ctx`nextToUpdate, ctx.hashTable, ctx.chainTable, dst
    ensures Untouched(dst[..], was, t.dest, t.end)
    ensures ok || t.limited
    ensures ok ==> OutputOk(dst[..], was, t, op, src, ss, anchor)
    ensures ok ==> ctx.Ready(seen) && seen <= anchor && found.start < anchor
    ensures End(found) + MFLIMIT > |src| ==> (ok <==> SequenceFits(t, op0, found.start - anchor0, found.len))
    ensures ok && End(found) + MFLIMIT > |src| ==> anchor == End(found) && Follows(src, ss, ss0, anchor0, found)
  {
    hide Encodable, OutputOk, Untouched, Roomy, StateOk, Follows, SequenceFits;
    OutputUntouched(dst[..], was, t, op0, src, ss0, anchor0);
    ok, op, anchor, ss, seen := true, op0, anchor0, ss0, found.start;
    ghost var from := found.start;
    FirstState(src, found, anchor0);
    var state := Search2State(found, found);
    while state != Done
      invariant ctx.Ready(seen) && OutputOk(dst[..], was, t, op, src, ss, anchor)
      invariant StateOk(src, state, anchor, seen, from)
      invariant End(found) + MFLIMIT > |src| ==>
        if state == Done then anchor == End(found) && Follows(src, ss, ss0, anchor0, found) && SequenceFits(t, op0, found.start - anchor0, found.len)
        else state == Search2State(found, found) && op == op0 && anchor == anchor0 && ss == ss0
      decreases if state == Done then 0 else |src| - seen
    {
      SeenBelow(src, state, anchor, seen, from);
      match state {
      case Search2State(m0, m1) =>
        ok, op, anchor, state, ss, seen := Step2(ctx, src, dst, t, op, anchor, m0, m1, effort, hash, ss, seen, was, from);
      case Search3State(m1, m2) =>
        ok, op, anchor, state, ss, seen := Step3(ctx, src, dst, t, op, anchor, m1, m2, effort, hash, ss, seen, was, from);
      }
      if !ok {
        return;
      }
    }
    OutputUntouched(dst[..], was, t, op, src, ss, anchor);
    DoneFacts(src, anchor, seen, from);
  }

  lemma FirstState(src: seq<byte>, m: Match, anchor: nat)
    requires Encodable(src, m) && anchor <= m.start
    ensures StateOk(src, Search2State(m, m), anchor, m.start, m.start)
  {
  }

  lemma SeenBelow(src: seq<byte>, state: State, anchor: nat, seen: nat, from: nat)
    requires StateOk(src, state, anchor, seen, from) && state != Done
    ensures seen < |src|
  {
  }

  lemma DoneFacts(src: seq<byte>, anchor: nat, seen: nat, from: nat)
    requires StateOk(src, Done, anchor, seen, from)
    ensures seen <= anchor && from < anchor
  {
  }

  /** LZ4HC_compress_hashChain, with the output limited or not: whatever the hash function, a
      finished block is well formed and decodes to its source. */
  method CompressHashChain(ctx: Tables, src: seq<byte>, dst: array<byte>, t: Target, effort: Effort, hash: seq<byte> -> nat)
    returns (r: nat)
    requires ctx.hashTable as object != dst as object && ctx.chainTable as object != dst as object
    requires Roomy(t, dst, |src|) && ctx.Ready(0)
    modifies ctx`nextToUpdate, ctx.hashTable, ctx.chainTable, dst
    ensures r > 0 ==> ctx.Filled(|src|)
    ensures Untouched(dst[..], old(dst[..]), t.dest, t.end)
    ensures r == 0 ==> t.limited
    ensures r > 0 ==> t.dest + r <= t.end && IsCompressed(Out(dst[..], t.dest, t.dest + r), src)
    ensures r > 0 && !t.limited ==> r <= |src| + |src| / 255 + 16
    ensures r > 0 && AllSame(src) && effort.attempts > 0 ==> r == RunSize(|src|)
    ensures AllSame(src) && effort.attempts > 0 ==> (r > 0 <==> RunSizeFits(src, t, t.dest))
  {
    hide Encodable, OutputOk, Untouched, Roomy, IsCompressed, Out, Follows, AllSame, RunSequences, RunSize, SequenceFits, RunSizeFits, EncodeSequences, EncodeLiterals, LastRoom;
    ghost var run := AllSame(src) && effort.attempts > 0;
    ghost var was := dst[..];
    var ip: nat, anchor: nat, op: nat, ok := 0, 0, t.dest, true;
    ghost var ss, seen: nat := Start, 0;
    RoomyIs(t, dst, |src|);
    NothingWritten(was, t, src);
    OutputUntouched(was, was, t, op, src, ss, anchor);
    if |src| >= LZ4_MINLENGTH {
      while ip + MFLIMIT <= |src|
        invariant anchor <= ip && seen <= ip && ctx.Ready(seen) && seen <= |src|
        invariant Untouched(dst[..], was, t.dest, t.end)
        invariant OutputOk(dst[..], was, t, op, src, ss, anchor)
        invariant run ==> if ip <= 1 then op == t.dest && anchor == 0 && ss == Start && seen == 0 else anchor == |src| - LASTLITERALS && ss == RunSequences(src)
        decreases |src| - ip
      {
        var m := FindBest(ctx, src, ip, effort, hash, seen);
        seen := ip;
        if m.len < MINMATCH {
          ip := ip + 1;
          continue;
        }
        if run && ip == 1 { RunNeeds(src, t); }
        ok, op, anchor, ss, seen := EncodeFrom(ctx, src, dst, t, op, anchor, m, effort, hash, ss, was);
        if !ok {
          return 0;
        }
        AnchorInside(dst[..], was, t, op, src, ss, anchor);
        if run && ip == 1 { RunFollows(src, ss); }
        ip := anchor;
      }
    }
    r := Finish(src, dst, t, op, anchor, ss, was);
    if run {
      RunSizeIs(src, t);
    }
  }

  /** The checks for a run's match pass when its block fits. */
  lemma RunNeeds(src: seq<byte>, t: Target)
    requires AllSame(src)
    ensures RunSizeFits(src, t, t.dest) ==> SequenceFits(t, t.dest, 1, |src| - 6)
  {
    assert LengthSize(1) == 0;
  }

  lemma RunFollows(src: seq<byte>, ss: Sequences)
    requires AllSame(src) && Follows(src, ss, Start, 0, RunMatch(src))
    ensures ss == RunSequences(src)
  {
  }

  lemma AnchorInside(now: seq<byte>, was: seq<byte>, t: Target, op: nat, src: seq<byte>, ss: Sequences, anchor: nat)
    requires OutputOk(now, was, t, op, src, ss, anchor)
    ensures anchor <= |src|
  {
  }

  lemma NothingWritten(was: seq<byte>, t: Target, src: seq<byte>)
    requires t.dest <= t.end <= |was|
    ensures OutputOk(was, was, t, t.dest, src, Start, 0)
  {
    UntouchedSame(was, t.dest, t.end);
    assert src[..0] == [];
  }

  lemma WrittenSoFar(now: seq<byte>, was: seq<byte>, t: Target, op: nat, src: seq<byte>, ss: Sequences, anchor: nat)
    requires OutputOk(now, was, t, op, src, ss, anchor)
    ensures op == t.dest + |EncodeSequences(ss)| && t.dest <= op <= t.end <= |now| && Untouched(now, was, t.dest, t.end)
    ensures Emitted(Out(now, t.dest, op), src, ss, anchor) && anchor <= |src| && (ss != Start ==> anchor + LASTLITERALS <= |src|)
  {
    hide EncodeSequences, Untouched;
  }

  /** A size other than 0 is that of a block of the input, which keeps to the bound if it is not limited. */
  ghost predicate Ended(s: seq<byte>, t: Target, r: nat, src: seq<byte>) {
    && t.dest <= t.end <= |s|
    && (r > 0 ==> t.dest + r <= t.end && IsCompressed(Out(s, t.dest, t.dest + r), src))
    && (r > 0 && !t.limited ==> r <= |src| + |src| / 255 + 16)
  }

  lemma NotEnded(s: seq<byte>, t: Target, src: seq<byte>)
    requires t.dest <= t.end <= |s|
    ensures Ended(s, t, 0, src)
  {
  }

  lemma EndedAt(s: seq<byte>, t: Target, r: nat, e: nat, src: seq<byte>)
    requires t.dest <= e <= t.end <= |s| && e == t.dest + r && IsCompressed(Out(s, t.dest, e), src)
    requires !t.limited ==> e <= t.dest + |src| + |src| / 255 + 16
    ensures Ended(s, t, r, src)
  {
    hide IsCompressed, Out;
  }

  /** The last literals. */
  method Finish(src: seq<byte>, dst: array<byte>, t: Target, op: nat, anchor: nat, ghost ss: Sequences, ghost was: seq<byte>)
    returns (r: nat)
    requires Roomy(t, dst, |src|) && OutputOk(dst[..], was, t, op, src, ss, anchor)
    modifies dst
    ensures Untouched(dst[..], was, t.dest, t.end) && Ended(dst[..], t, r, src)
    ensures r == 0 ==> t.limited
    ensures r > 0 ==> anchor <= |src| && r == |EncodeSequences(ss)| + |EncodeLiterals(src[anchor..], 0)|
    ensures anchor <= |src| && (r > 0 <==> !t.limited || t.dest + |EncodeSequences(ss)| + LastRoom(|src| - anchor) <= t.end)
  {
    WrittenSoFar(dst[..], was, t, op, src, ss, anchor);
    hide OutputOk, Roomy, Untouched, IsCompressed, Out, Emitted, EncodeSequences, EncodeLiterals, LastRoom, Ended;
    ghost var before := dst[..];
    var ok, e := FinishBlock(src, dst, t, op, anchor, ss);
    UntouchedTwice(was, before, dst[..], t.dest, t.end);
    if !ok {
      NotEnded(dst[..], t, src);
      return 0;
    }
    r := e - t.dest;
    EndedAt(dst[..], t, r, e, src);
  }
}
