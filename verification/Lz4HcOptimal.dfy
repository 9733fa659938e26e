/** LZ4HC_compress_optimal: dynamic programming over the positions behind a match, a traversal back
    from the cheapest end, and the encoding of the path found. Prices decide which parse is taken;
    whatever they are, the parse is valid. */
module Lz4HcOptimal {
  import opened Lz4Block
  import opened Lz4Copy
  import opened Lz4Compress
  import Lz4Emit
  import opened Lz4HcMatch
  import opened Lz4HcEmit
  import opened Lz4HcLazy

  const OPT_NUM := 4096
  const TRAILING_LITERALS := 3
  const OPT_SIZE := 4099

  /** How the cheapest way to a position ends: a literal (mlen 1) or a match. */
  datatype Optimal = Optimal(price: int, off: nat, mlen: nat, litlen: nat)

  function LiteralsPrice(litlen: nat): int {
    if litlen >= RUN_MASK then litlen + 1 + (litlen - RUN_MASK) / 255 else litlen
  }

  function SequencePrice(litlen: nat, mlen: nat): int
    requires mlen >= MINMATCH
  {
    3 + LiteralsPrice(litlen) + (if mlen >= ML_MASK + MINMATCH then 1 + (mlen - (ML_MASK + MINMATCH)) / 255 else 0)
  }

  // -------------------------------------------------------------- the table

  /** A literal, or a match that ends at ip + pos and starts at ip or behind it. */
  ghost predicate Ends(src: seq<byte>, ip: nat, pos: nat, o: Optimal) {
    o.mlen == 1 || (MINMATCH <= o.mlen <= pos && Encodable(src, Match(ip + (pos - o.mlen), o.mlen, o.off)))
  }

  /** The entries below n are ends of parses; the first is a literal for good. */
  ghost predicate TableTo(o: seq<Optimal>, src: seq<byte>, ip: nat, n: nat) {
    n <= |o| && (n > 0 ==> o[0].mlen == 1) && forall pos: nat | pos < n :: Ends(src, ip, pos, o[pos])
  }

  lemma TableSet(o: seq<Optimal>, src: seq<byte>, ip: nat, n: nat, pos: nat, v: Optimal)
    requires TableTo(o, src, ip, n) && pos <= n && pos < |o| && Ends(src, ip, pos, v) && (pos == 0 ==> v.mlen == 1)
    ensures TableTo(o[pos := v], src, ip, if pos < n then n else pos + 1)
  {
    hide Ends;
  }

  lemma TableFewer(o: seq<Optimal>, src: seq<byte>, ip: nat, n: nat, k: nat)
    requires TableTo(o, src, ip, n) && k <= n
    ensures TableTo(o, src, ip, k)
  {
    hide Ends;
  }

  method Put(opt: array<Optimal>, src: seq<byte>, ip: nat, pos: nat, v: Optimal, ghost n: nat)
    requires TableTo(opt[..], src, ip, n) && pos <= n && pos < opt.Length && Ends(src, ip, pos, v) && (pos == 0 ==> v.mlen == 1)
    modifies opt
    ensures TableTo(opt[..], src, ip, if pos < n then n else pos + 1)
  {
    hide Ends, TableTo;
    TableSet(opt[..], src, ip, n, pos, v);
    ghost var o := opt[..];
    opt[pos] := v;
    assert opt[..] == o[pos := v];
  }

  lemma LiteralEnds(src: seq<byte>, ip: nat, pos: nat, price: int, litlen: nat)
    ensures Ends(src, ip, pos, Optimal(price, 0, 1, litlen))
  {
  }

  lemma MatchEnds(src: seq<byte>, ip: nat, m: Match, cur: nat, ml: nat, price: int, litlen: nat)
    requires Encodable(src, m) && m.start == ip + cur && MINMATCH <= ml <= m.len
    ensures Ends(src, ip, cur + ml, Optimal(price, m.offset, ml, litlen))
  {
    EncodableTrim(src, m, ml);
  }

  /** The first positions, reached by literals only. */
  method SetFirstLiterals(opt: array<Optimal>, src: seq<byte>, ip: nat, llen: nat)
    requires opt.Length == OPT_SIZE
    modifies opt
    ensures TableTo(opt[..], src, ip, MINMATCH)
  {
    hide Ends;
    assert TableTo(opt[..], src, ip, 0);
    for rPos := 0 to MINMATCH
      invariant TableTo(opt[..], src, ip, rPos)
    {
      var cost := LiteralsPrice(llen + rPos);
      LiteralEnds(src, ip, rPos, cost, llen + rPos);
      Put(opt, src, ip, rPos, Optimal(cost, 0, 1, llen + rPos), rPos);
    }
  }

  /** The positions that the first match reaches. */
  method SetFirstMatch(opt: array<Optimal>, src: seq<byte>, ip: nat, llen: nat, first: Match)
    requires opt.Length == OPT_SIZE && TableTo(opt[..], src, ip, MINMATCH)
    requires Encodable(src, first) && first.start == ip && first.len < OPT_NUM
    modifies opt
    ensures TableTo(opt[..], src, ip, first.len + 1)
  {
    EncodableFacts(src, first);
    hide Ends, TableTo, Encodable;
    for mlen := MINMATCH to first.len + 1
      invariant TableTo(opt[..], src, ip, mlen)
    {
      var cost := SequencePrice(llen, mlen);
      MatchEnds(src, ip, first, 0, mlen, cost, llen);
      Put(opt, src, ip, mlen, Optimal(cost, first.offset, mlen, llen), mlen);
    }
  }

  /** Three literals behind the last position that a match reaches. */
  method SetTrailingLiterals(opt: array<Optimal>, src: seq<byte>, ip: nat, last: nat, ghost n: nat)
    requires opt.Length == OPT_SIZE && last < OPT_NUM && last < n && TableTo(opt[..], src, ip, n)
    modifies opt
    ensures TableTo(opt[..], src, ip, last + TRAILING_LITERALS + 1)
  {
    hide Ends, TableTo;
    ghost var k := n;
    for addLit := 1 to TRAILING_LITERALS + 1
      invariant last + addLit <= k && TableTo(opt[..], src, ip, k)
    {
      var price := opt[last].price + LiteralsPrice(addLit);
      LiteralEnds(src, ip, last + addLit, price, addLit);
      Put(opt, src, ip, last + addLit, Optimal(price, 0, 1, addLit), k);
      k := if last + addLit < k then k else last + addLit + 1;
    }
    TableFewer(opt[..], src, ip, k, last + TRAILING_LITERALS + 1);
  }

  /** Literals before a match found at cur, where they are cheaper. */
  method ImproveLiterals(opt: array<Optimal>, src: seq<byte>, ip: nat, cur: nat, last: nat)
    requires opt.Length == OPT_SIZE && 0 < cur < last < OPT_NUM && TableTo(opt[..], src, ip, last + TRAILING_LITERALS + 1)
    modifies opt
    ensures TableTo(opt[..], src, ip, last + TRAILING_LITERALS + 1)
  {
    hide Ends, TableTo;
    var baseLitlen := opt[cur].litlen;
    for litlen := 1 to MINMATCH
      invariant TableTo(opt[..], src, ip, last + TRAILING_LITERALS + 1)
    {
      var price := opt[cur].price - LiteralsPrice(baseLitlen) + LiteralsPrice(baseLitlen + litlen);
      var pos := cur + litlen;
      if price < opt[pos].price {
        LiteralEnds(src, ip, pos, price, baseLitlen + litlen);
        Put(opt, src, ip, pos, Optimal(price, 0, 1, baseLitlen + litlen), last + TRAILING_LITERALS + 1);
      }
    }
  }

  /** The positions that a match found at cur reaches, where it is cheaper or reaches farther. */
  method ImproveMatches(opt: array<Optimal>, src: seq<byte>, ip: nat, cur: nat, last0: nat, m: Match, favorDecSpeed: bool)
    returns (last: nat, ghost n: nat)
    requires opt.Length == OPT_SIZE && 0 < cur < last0 < OPT_NUM && TableTo(opt[..], src, ip, last0 + TRAILING_LITERALS + 1)
    requires Encodable(src, m) && m.start == ip + cur && cur + m.len < OPT_NUM
    modifies opt
    ensures TableTo(opt[..], src, ip, n) && last < n
    ensures last == last0 || last0 < last == cur + m.len
  {
    EncodableFacts(src, m);
    hide Ends, TableTo, Encodable;
    last, n := last0, last0 + TRAILING_LITERALS + 1;
    for ml := MINMATCH to m.len + 1
      invariant TableTo(opt[..], src, ip, n) && cur + ml <= n
      invariant last0 + TRAILING_LITERALS < n
      invariant if ml <= m.len then last == last0 else last == last0 || (last0 < last == cur + m.len < n)
    {
      var pos := cur + ml;
      var ll := if opt[cur].mlen == 1 then opt[cur].litlen else 0;
      var price := if opt[cur].mlen == 1 then (if cur > ll then opt[cur - ll].price else 0) + SequencePrice(ll, ml)
                   else opt[cur].price + SequencePrice(0, ml);
      if pos > last + TRAILING_LITERALS || price <= opt[pos].price - (if favorDecSpeed then 1 else 0) {
        if ml == m.len && last < pos {
          last := pos;
        }
        MatchEnds(src, ip, m, cur, ml, price, ll);
        Put(opt, src, ip, pos, Optimal(price, m.offset, ml, ll), n);
        n := if pos < n then n else pos + 1;
      }
    }
  }

  // ------------------------------------------------------------- searching

  datatype Options = Options(attempts: nat, sufficient: nat, fullUpdate: bool, favorDecSpeed: bool)

  /** LZ4HC_FindLongerMatch: a match at ip of more than minLen bytes, or one of length 0. */
  method FindLonger(ctx: Tables, src: seq<byte>, ip: nat, minLen: nat, options: Options, hash: seq<byte> -> nat, ghost seen: nat) returns (m: Match)
    requires ctx.Ready(seen) && seen <= ip && ip + MFLIMIT <= |src| && 1 <= minLen && ip + minLen < |src|
    modifies ctx`nextToUpdate, ctx.hashTable, ctx.chainTable
    ensures ctx.Ready(ip)
    ensures m.len != 0 ==> m.start == ip && Encodable(src, m)
    ensures ip == 0 ==> m.len == 0
    ensures AllSame(src) && ip == 1 && seen == 0 && minLen < MINMATCH && options.attempts > 0 && !options.favorDecSpeed ==> m == RunMatch(src)
  {
    m := ctx.GetWiderMatch(src, ip, ip, minLen, hash, options.attempts, true, true, options.favorDecSpeed, seen);
    if m.len <= minLen {
      m := Match(ip, 0, 0);
    } else {
      FoundCovers(src, m, ip);
      FoundEncodable(src, m, ip, ip);
      if options.favorDecSpeed && 18 < m.len <= 36 {
        EncodableTrim(src, m, 18);
        m := Match(m.start, 18, m.offset);
      }
    }
  }

  lemma FoundCovers(src: seq<byte>, m: Match, ip: nat)
    requires |src| >= LASTLITERALS && m.start == ip && Found(src, m, ip, ip, |src| - LASTLITERALS)
    ensures m.len >= MINMATCH
  {
  }

  /** A choice at ip + pos: a literal or a match that starts there. */
  ghost predicate Starts(src: seq<byte>, ip: nat, pos: nat, len: nat, off: nat) {
    len == 1 || Encodable(src, Match(ip + pos, len, off))
  }

  lemma EndsStarts(src: seq<byte>, ip: nat, o: seq<Optimal>, n: nat, pos: nat)
    requires TableTo(o, src, ip, n) && pos < n
    ensures o[pos].mlen >= 1 && (if pos == 0 then o[pos].mlen == 1 else o[pos].mlen <= pos)
    ensures pos > 0 ==> Starts(src, ip, pos - o[pos].mlen, o[pos].mlen, o[pos].off)
  {
    assert Ends(src, ip, pos, o[pos]);
  }

  /** Whether the search at a position is skipped because of the prices there. */
  predicate NotUseful(opt: array<Optimal>, cur: nat, options: Options)
    requires cur + MINMATCH < opt.Length
    reads opt
  {
    opt[cur + 1].price <= opt[cur].price && (options.fullUpdate ==> opt[cur + MINMATCH].price < opt[cur].price + 3)
  }

  /** The further positions: extends the table until the last position stands, or a match is good
      enough to be taken at once. Returns the last step of the parse, from cur to at least last. */
  method SearchFurther(ctx: Tables, src: seq<byte>, opt: array<Optimal>, ip: nat, last0: nat, options: Options, hash: seq<byte> -> nat)
    returns (cur: nat, last: nat, len: nat, off: nat, ghost seen: nat)
    requires ctx.Ready(ip) && opt.Length == OPT_SIZE && 0 < last0 < OPT_NUM && ip + last0 + LASTLITERALS <= |src|
    requires TableTo(opt[..], src, ip, last0 + TRAILING_LITERALS + 1)
    modifies ctx`nextToUpdate, ctx.hashTable, ctx.chainTable, opt
    ensures ctx.Ready(seen) && seen < ip + last
    ensures cur < last <= OPT_NUM && last <= cur + len && ip + last + LASTLITERALS <= |src|
    ensures Starts(src, ip, cur, len, off) && TableTo(opt[..], src, ip, cur + 1)
  {
    hide TableTo, Starts, Encodable;
    cur, last, seen := 1, last0, ip;
    while cur < last
      invariant 1 <= cur <= last < OPT_NUM && ip + last + LASTLITERALS <= |src|
      invariant ctx.Ready(seen) && seen < ip + cur
      invariant TableTo(opt[..], src, ip, last + TRAILING_LITERALS + 1)
      decreases OPT_NUM - cur
    {
      if ip + cur + MFLIMIT > |src| { break; }
      if NotUseful(opt, cur, options) {
        cur := cur + 1;
        continue;
      }
      var m := FindLonger(ctx, src, ip + cur, if options.fullUpdate then MINMATCH - 1 else last - cur, options, hash, seen);
      seen := ip + cur;
      if m.len == 0 {
        cur := cur + 1;
        continue;
      }
      EncodableFacts(src, m);
      if m.len > options.sufficient || m.len + cur >= OPT_NUM {
        StartsMatch(src, ip, cur, m);
        TableFewer(opt[..], src, ip, last + TRAILING_LITERALS + 1, cur + 1);
        last, len, off := cur + 1, m.len, m.offset;
        return;
      }
      ImproveLiterals(opt, src, ip, cur, last);
      ghost var n;
      last, n := ImproveMatches(opt, src, ip, cur, last, m, options.favorDecSpeed);
      SetTrailingLiterals(opt, src, ip, last, n);
      cur := cur + 1;
    }
    EndsStarts(src, ip, opt[..], last + TRAILING_LITERALS + 1, last);
    len, off := opt[last].mlen, opt[last].off;
    cur := last - len;
    TableFewer(opt[..], src, ip, last + TRAILING_LITERALS + 1, cur + 1);
  }

  lemma StartsMatch(src: seq<byte>, ip: nat, cur: nat, m: Match)
    requires Encodable(src, m) && m.start == ip + cur
    ensures Starts(src, ip, cur, m.len, m.offset)
  {
  }

  // -------------------------------------------------- the path back and forth

  /** From position r on, the entries are choices that lead to last or beyond. */
  ghost predicate Forward(o: seq<Optimal>, src: seq<byte>, ip: nat, r: nat, last: nat)
    decreases if r < last then last - r else 0
  {
    r < last ==>
      && r < |o| && o[r].mlen >= 1 && Starts(src, ip, r, o[r].mlen, o[r].off)
      && Forward(o, src, ip, r + o[r].mlen, last)
  }

  /** Entries before r do not matter. */
  lemma {:induction false} ForwardKept(o: seq<Optimal>, o2: seq<Optimal>, src: seq<byte>, ip: nat, r: nat, last: nat)
    requires Forward(o, src, ip, r, last) && |o2| == |o|
    requires forall k | r <= k < |o| :: o2[k] == o[k]
    ensures Forward(o2, src, ip, r, last)
    decreases if r < last then last - r else 0
  {
    if r < last {
      ForwardKept(o, o2, src, ip, r + o[r].mlen, last);
    }
  }

  lemma ForwardStep(o: seq<Optimal>, src: seq<byte>, ip: nat, r: nat, last: nat, len: nat, off: nat)
    requires r < |o| && len >= 1 && Starts(src, ip, r, len, off) && Forward(o, src, ip, r + len, last)
    ensures Forward(o[r := o[r].(mlen := len, off := off)], src, ip, r, last)
  {
    var o2 := o[r := o[r].(mlen := len, off := off)];
    hide Starts;
    ForwardKept(o, o2, src, ip, r + len, last);
  }

  /** The reverse traversal: every entry on the path is replaced by the choice that starts there. */
  method Reverse(src: seq<byte>, opt: array<Optimal>, ip: nat, cur: nat, last: nat, len: nat, off: nat)
    requires opt.Length == OPT_SIZE && cur < last <= cur + len && cur < OPT_SIZE
    requires Starts(src, ip, cur, len, off) && TableTo(opt[..], src, ip, cur + 1)
    modifies opt
    ensures Forward(opt[..], src, ip, 0, last)
  {
    hide Starts, TableTo;
    var candidate: nat, selectedLen, selectedOff := cur, len, off;
    while true
      invariant candidate <= cur && selectedLen >= 1 && Starts(src, ip, candidate, selectedLen, selectedOff)
      invariant TableTo(opt[..], src, ip, candidate + 1)
      invariant Forward(opt[..], src, ip, candidate + selectedLen, last)
      decreases candidate
    {
      EndsStarts(src, ip, opt[..], candidate + 1, candidate);
      var nextLen, nextOff := opt[candidate].mlen, opt[candidate].off;
      ForwardStep(opt[..], src, ip, candidate, last, selectedLen, selectedOff);
      ghost var o := opt[..];
      opt[candidate] := opt[candidate].(mlen := selectedLen, off := selectedOff);
      assert opt[..] == o[candidate := o[candidate].(mlen := selectedLen, off := selectedOff)];
      selectedLen, selectedOff := nextLen, nextOff;
      if nextLen > candidate { break; }
      TableBelow(o, opt[..], src, ip, candidate, candidate - nextLen + 1);
      candidate := candidate - nextLen;
    }
  }

  lemma TableBelow(o: seq<Optimal>, o2: seq<Optimal>, src: seq<byte>, ip: nat, n: nat, k: nat)
    requires TableTo(o, src, ip, n + 1) && k <= n && |o2| == |o| && forall i | 0 <= i < n :: o2[i] == o[i]
    ensures TableTo(o2, src, ip, k)
  {
    hide Ends;
    forall pos: nat | pos < k ensures Ends(src, ip, pos, o2[pos]) {
      assert Ends(src, ip, pos, o[pos]);
    }
  }

  /** Encodes the path. */
  method EncodePath(src: seq<byte>, dst: array<byte>, t: Target, opt: array<Optimal>, op0: nat, anchor0: nat, ip0: nat, last: nat,
                    ghost ss0: Sequences, ghost was: seq<byte>)
    returns (ok: bool, op: nat, anchor: nat, ip: nat, ghost ss: Sequences)
    requires opt as object != dst as object && anchor0 <= ip0 && ip0 + last + LASTLITERALS <= |src|
    requires Roomy(t, dst, |src|) && OutputOk(dst[..], was, t, op0, src, ss0, anchor0)
    requires Forward(opt[..], src, ip0, 0, last)
    modifies dst
    ensures Untouched(dst[..], was, t.dest, t.end)
    ensures ok || t.limited
    ensures ok ==> OutputOk(dst[..], was, t, op, src, ss, anchor) && anchor <= ip && ip0 + last <= ip <= |src|
  {
    hide OutputOk, Untouched, Roomy, Encodable;
    OutputUntouched(dst[..], was, t, op0, src, ss0, anchor0);
    ok, op, anchor, ip, ss := true, op0, anchor0, ip0, ss0;
    var rPos := 0;
    while rPos < last
      invariant ip == ip0 + rPos && anchor <= ip <= |src|
      invariant OutputOk(dst[..], was, t, op, src, ss, anchor) && Untouched(dst[..], was, t.dest, t.end)
      invariant Forward(opt[..], src, ip0, rPos, last)
      decreases last - rPos
    {
      var ml, offset := opt[rPos].mlen, opt[rPos].off;
      assert Starts(src, ip0, rPos, ml, offset);
      if ml == 1 {
        ip, rPos := ip + 1, rPos + 1;
        continue;
      }
      rPos := rPos + ml;
      var m := Match(ip, ml, offset);
      EncodableFacts(src, m);
      ok, op, ss := Emit(src, dst, t, op, anchor, m, ss, was);
      if !ok {
        return;
      }
      ip := ip + ml;
      anchor := ip;
    }
    OutputUntouched(dst[..], was, t, op, src, ss, anchor);
  }

  /** One round of the main loop: from a found match to behind the path that starts with it. */
  method EncodeRound(ctx: Tables, src: seq<byte>, dst: array<byte>, t: Target, opt: array<Optimal>, op0: nat, anchor0: nat, first: Match,
                     options: Options, hash: seq<byte> -> nat, ghost ss0: Sequences, ghost was: seq<byte>)
    returns (ok: bool, op: nat, anchor: nat, ip: nat, ghost ss: Sequences, ghost seen: nat)
    requires ctx.hashTable as object != dst as object && ctx.chainTable as object != dst as object
    requires opt as object != dst as object && opt as object != ctx.hashTable as object && opt as object != ctx.chainTable as object
    requires opt.Length == OPT_SIZE && Roomy(t, dst, |src|) && OutputOk(dst[..], was, t, op0, src, ss0, anchor0)
    requires anchor0 <= first.start && ctx.Ready(first.start) && Encodable(src, first) && options.sufficient < OPT_NUM
    modifies ctx`nextToUpdate, ctx.hashTable, ctx.chainTable, opt, dst
    ensures Untouched(dst[..], was, t.dest, t.end)
    ensures ok || t.limited
    ensures ok ==> OutputOk(dst[..], was, t, op, src, ss, anchor) && anchor <= ip <= |src|
    ensures ok ==> ctx.Ready(seen) && seen <= ip && first.start < ip
    ensures first.len > options.sufficient ==> (ok <==> SequenceFits(t, op0, first.start - anchor0, first.len))
    ensures ok && first.len > options.sufficient ==> ip == anchor == End(first) && Follows(src, ss, ss0, anchor0, first)
  {
    hide OutputOk, Untouched, Roomy, Encodable, TableTo, Forward, Starts, Follows, SequenceFits;
    EncodableFacts(src, first);
    if first.len > options.sufficient {
      ok, op, ss := Emit(src, dst, t, op0, anchor0, first, ss0, was);
      anchor, ip, seen := End(first), End(first), first.start;
      return;
    }
    ip := first.start;
    var llen := ip - anchor0;
    SetFirstLiterals(opt, src, ip, llen);
    SetFirstMatch(opt, src, ip, llen, first);
    SetTrailingLiterals(opt, src, ip, first.len, first.len + 1);
    var cur, last, len, off;
    cur, last, len, off, seen := SearchFurther(ctx, src, opt, ip, first.len, options, hash);
    Reverse(src, opt, ip, cur, last, len, off);
    ok, op, anchor, ip, ss := EncodePath(src, dst, t, opt, op0, anchor0, ip, last, ss0, was);
  }

  /** LZ4HC_compress_optimal, with the output limited or not: whatever the hash function and the
      prices, a finished block is well formed and decodes to its source. */
  method CompressOptimal(ctx: Tables, src: seq<byte>, dst: array<byte>, t: Target, options0: Options, hash: seq<byte> -> nat)
    returns (r: nat)
    requires ctx.hashTable as object != dst as object && ctx.chainTable as object != dst as object
    requires Roomy(t, dst, |src|) && ctx.Ready(0)
    modifies ctx`nextToUpdate, ctx.hashTable, ctx.chainTable, dst
    ensures r > 0 ==> ctx.Filled(|src|)
    ensures Untouched(dst[..], old(dst[..]), t.dest, t.end)
    ensures r == 0 ==> t.limited
    ensures r > 0 ==> t.dest + r <= t.end && IsCompressed(Out(dst[..], t.dest, t.dest + r), src)
    ensures r > 0 && !t.limited ==> r <= |src| + |src| / 255 + 16
    ensures r > 0 && AllSame(src) && Immediate(src, options0) ==> r == RunSize(|src|)
    ensures AllSame(src) && Immediate(src, options0) ==> (r > 0 <==> RunSizeFits(src, t, t.dest))
  {
    hide Encodable, OutputOk, Untouched, Roomy, IsCompressed, Out, Follows, AllSame, RunSequences, RunSize, SequenceFits, RunSizeFits, EncodeSequences, EncodeLiterals, Lz4Emit.LastRoom;
    ghost var run := AllSame(src) && Immediate(src, options0);
    ghost var was := dst[..];
    var opt := new Optimal[OPT_SIZE];
    var options := if options0.sufficient >= OPT_NUM then options0.(sufficient := OPT_NUM - 1) else options0;
    var ip: nat, anchor: nat, op: nat, ok := 0, 0, t.dest, true;
    ghost var ss, seen: nat := Start, 0;
    RoomyIs(t, dst, |src|);
    NothingWritten(was, t, src);
    OutputUntouched(was, was, t, op, src, ss, anchor);
    while ip + MFLIMIT <= |src|
      invariant anchor <= ip && seen <= ip && ctx.Ready(seen) && seen <= |src|
      invariant Untouched(dst[..], was, t.dest, t.end)
      invariant OutputOk(dst[..], was, t, op, src, ss, anchor)
      invariant run ==> if ip <= 1 then op == t.dest && anchor == 0 && ss == Start && seen == 0 else anchor == |src| - LASTLITERALS && ss == RunSequences(src)
      decreases |src| - ip
    {
      var m := FindLonger(ctx, src, ip, MINMATCH - 1, options, hash, seen);
      seen := ip;
      if m.len == 0 {
        ip := ip + 1;
        continue;
      }
      if run && ip == 1 { RunNeeds(src, t); }
      ok, op, anchor, ip, ss, seen := EncodeRound(ctx, src, dst, t, opt, op, anchor, m, options, hash, ss, was);
      if !ok {
        return 0;
      }
      if run && m == RunMatch(src) && Follows(src, ss, Start, 0, m) { RunFollows(src, ss); }
    }
    r := Finish(src, dst, t, op, anchor, ss, was);
    if run {
      RunSizeIs(src, t);
    }
  }

  /** The match of a run is good enough to be encoded at once. */
  predicate Immediate(src: seq<byte>, options: Options) {
    options.attempts > 0 && !options.favorDecSpeed && |src| - 6 > (if options.sufficient >= OPT_NUM then OPT_NUM - 1 else options.sufficient)
  }
}
