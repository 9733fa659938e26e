/** LZ4_compress_generic for one contiguous input without a dictionary: the hash table that
    survives from one call to the next, the search loop, and the sequences it emits.  The hash
    function is arbitrary throughout. */
module Lz4Compress {
  import opened Lz4Block
  import opened Lz4Copy
  import opened Lz4Emit

  const LZ4_64KLIMIT := 65536 + MFLIMIT - 1
  const LZ4_MINLENGTH := MFLIMIT + 1
  const HASHTABLE_ENTRIES := 8192
  const ACCELERATION_DEFAULT := 1
  const ACCELERATION_MAX := 65537

  function CompressBound(n: nat): nat {
    if n > MAX_INPUT_SIZE then 0 else n + n / 255 + 16
  }

  datatype TableType = ClearedTable | ByU32 | ByU16

  /** What a search may read from the table: indexes below limit, and those left over from earlier
      inputs (below startIndex) are refused, either outright (dictSmall) or as too far away. */
  ghost predicate TableOk(table: seq<nat>, tableType: TableType, startIndex: nat, limit: nat, dictSmall: bool) {
    forall k | 0 <= k < |table| :: EntryOk(table[k], tableType, startIndex, limit, dictSmall)
  }

  ghost predicate EntryOk(entry: nat, tableType: TableType, startIndex: nat, limit: nat, dictSmall: bool) {
    && entry < limit
    && (entry < startIndex ==> dictSmall || (tableType == ByU32 && entry + 65536 <= startIndex))
  }

  /** A usable earlier occurrence of the four bytes at ip. */
  ghost predicate IsMatch(src: seq<byte>, ip: nat, match_: nat) {
    match_ < ip && IsMatchTo(src, ip, ip - match_, ip + MINMATCH)
  }

  /** LZ4_read16, LZ4_read32, LZ4_read_ARCH compared: n bytes at a and at b agree. */
  predicate SameWord(src: seq<byte>, a: nat, b: nat, n: nat)
    requires a + n <= |src| && b + n <= |src|
  {
    src[a..a + n] == src[b..b + n]
  }

  lemma SameWordPeriodic(src: seq<byte>, a: nat, b: nat, n: nat, offset: nat)
    requires 0 < offset && a + offset == b && b + n <= |src|
    ensures SameWord(src, a, b, n) <==> Periodic(src, b, b + n, offset)
  {
    var x, y := src[a..a + n], src[b..b + n];
    var e := b + n;
    if x == y {
      forall i | b <= i < e
        ensures SameAt(src, i, offset)
      {
        assert x[i - b] == y[i - b];
      }
    }
    if Periodic(src, b, e, offset) {
      forall j | 0 <= j < n
        ensures x[j] == y[j]
      {
        assert SameAt(src, b + j, offset);
      }
    }
  }

  lemma PeriodicJoin(src: seq<byte>, a: nat, b: nat, c: nat, p: nat)
    requires a <= b && Periodic(src, b, c, p) && p <= a
    requires forall i | a <= i < b :: SameAt(src, i, p)
    ensures Periodic(src, a, c, p)
  {
  }

  /** LZ4_NbCommonBytes of the exclusive-or of eight bytes: how many leading ones agree. */
  method CommonBytes(src: seq<byte>, b: nat, offset: nat) returns (n: nat)
    requires 0 < offset <= b && b + 8 <= |src|
    ensures n <= 8
    ensures Periodic(src, b, b + n, offset)
    ensures n < 8 ==> !SameAt(src, b + n, offset)
  {
    n := 0;
    while n < 8 && src[b + n] == src[b + n - offset]
      invariant n <= 8
      invariant Periodic(src, b, b + n, offset)
    {
      assert SameAt(src, b + n, offset);
      n := n + 1;
    }
  }

  /** LZ4_count: the longest common run of pIn and the bytes `offset` before it, up to limit;
      eight bytes at a time, then 4, 2 and 1. */
  method Count(src: seq<byte>, pIn0: nat, offset: nat, limit: nat) returns (e: nat)
    requires 0 < offset <= pIn0 <= limit <= |src|
    ensures pIn0 <= e <= limit
    ensures Periodic(src, pIn0, e, offset)
    ensures e < limit ==> !SameAt(src, e, offset)
  {
    e := pIn0;
    while e + 8 <= limit
      invariant pIn0 <= e <= limit
      invariant Periodic(src, pIn0, e, offset)
    {
      var n := CommonBytes(src, e, offset);
      PeriodicJoin(src, pIn0, e, e + n, offset);
      e := e + n;
      if n < 8 {
        return;
      }
    }
    e := CountTail(src, pIn0, e, offset, limit);
  }

  /** Fewer than size bytes agree from here on, or less than that are left. */
  ghost predicate LessThan(src: seq<byte>, e: nat, offset: nat, limit: nat, size: nat) {
    limit < e + size || !Periodic(src, e, e + size, offset)
  }

  method TryWord(src: seq<byte>, pIn0: nat, e0: nat, offset: nat, limit: nat, size: nat) returns (e: nat)
    requires 0 < offset <= pIn0 <= e0 <= limit <= |src| && size >= 1
    requires Periodic(src, pIn0, e0, offset) && LessThan(src, e0, offset, limit, 2 * size)
    ensures e0 <= e <= limit
    ensures Periodic(src, pIn0, e, offset) && LessThan(src, e, offset, limit, size)
  {
    e := e0;
    if e0 + size <= limit {
      SameWordPeriodic(src, e0 - offset, e0, size, offset);
      if SameWord(src, e0 - offset, e0, size) {
        e := e0 + size;
        PeriodicJoin(src, pIn0, e0, e, offset);
      }
    }
  }

  method CountTail(src: seq<byte>, pIn0: nat, pIn: nat, offset: nat, limit: nat) returns (e: nat)
    requires 0 < offset <= pIn0 <= pIn <= limit <= |src| && limit < pIn + 8
    requires Periodic(src, pIn0, pIn, offset)
    ensures pIn <= e <= limit
    ensures Periodic(src, pIn0, e, offset)
    ensures e < limit ==> !SameAt(src, e, offset)
  {
    e := TryWord(src, pIn0, pIn, offset, limit, 4);
    e := TryWord(src, pIn0, e, offset, limit, 2);
    e := TryWord(src, pIn0, e, offset, limit, 1);
  }

  // ------------------------------------------------------ the hash table

  lemma TableMore(table: seq<nat>, tableType: TableType, startIndex: nat, limit: nat, limit': nat, dictSmall: bool)
    requires TableOk(table, tableType, startIndex, limit, dictSmall) && limit <= limit'
    ensures TableOk(table, tableType, startIndex, limit', dictSmall)
  {
    forall k | 0 <= k < |table|
      ensures EntryOk(table[k], tableType, startIndex, limit', dictSmall)
    {
      assert EntryOk(table[k], tableType, startIndex, limit, dictSmall);
    }
  }

  /** One byte over and over, in an input that is long enough to be searched. */
  ghost predicate AllSame(src: seq<byte>) {
    |src| >= LZ4_MINLENGTH && forall i | 0 <= i < |src| :: src[i] == src[0]
  }

  /** The only match of a run. */
  ghost function RunSequences(src: seq<byte>): Sequences
    requires AllSame(src)
  {
    Append(Start, src[0..1], 1, |src| - 6)
  }

  /** The match at ip, from match_ on and up to e, is the newest sequence. */
  ghost predicate Added(src: seq<byte>, ss: Sequences, before: Sequences, anchor: nat, ip: nat, match_: nat, e: nat) {
    && anchor <= ip <= |src| && 1 <= ip - match_ <= DISTANCE_MAX && MINMATCH <= e - ip
    && ss == Append(before, src[anchor..ip], ip - match_, e - ip)
  }

  /** There is room for the match of a run from ip on, behind its literals. */
  predicate RunFits(src: seq<byte>, t: Target, op: nat, ip: nat) {
    !t.limited || op + 8 + (|src| - LASTLITERALS - ip - MINMATCH + 240) / 255 <= t.end
  }

  /** The size of its block: a literal, the match, and five literals. */
  function RunSize(n: nat): nat {
    10 + (n + 230) / 255
  }

  predicate RunSizeFits(src: seq<byte>, t: Target, op: nat) {
    !t.limited || op + RunSize(|src|) <= t.end
  }

  lemma RunSizeIs(src: seq<byte>, t: Target)
    requires AllSame(src)
    ensures |src| >= LZ4_MINLENGTH && |EncodeSequences(RunSequences(src))| + 6 == RunSize(|src|)
    ensures |EncodeLiterals(src[|src| - LASTLITERALS..], 0)| == 6 == LastRoom(LASTLITERALS)
    ensures RunSizeFits(src, t, t.dest) <==> !t.limited || t.dest + RunSize(|src|) <= t.end
  {
    var n := LengthSize(|src| - 6 - MINMATCH);
    assert EncodeSequences(Start) == [];
    assert LengthBytes(1) == [] && LengthBytes(5) == [];
  }

  lemma RunWords(src: seq<byte>)
    requires AllSame(src)
    ensures src[0..4] == src[1..5] && src[0..8] == src[1..9]
  {
  }

  /** The compression state that LZ4_compress_fast_extState_fastReset keeps between inputs. */
  class Stream {
    const hashTable: array<nat>
    var currentOffset: nat
    var tableType: TableType
    var dictSize: nat

    /** No entry is ahead of the offset reached, and a cleared or unused table is all zeros. */
    ghost predicate Valid()
      reads this, hashTable
    {
      && hashTable.Length == HASHTABLE_ENTRIES
      && (tableType == ClearedTable ==> currentOffset == 0)
      && (forall k | 0 <= k < hashTable.Length :: if currentOffset == 0 then hashTable[k] == 0 else hashTable[k] < currentOffset)
      && currentOffset < 0x1_0000_0000
    }

    /** LZ4_initStream. */
    constructor ()
      ensures Valid() && fresh(hashTable)
      ensures currentOffset == 0 && tableType == ClearedTable && dictSize == 0
    {
      hashTable := new nat[HASHTABLE_ENTRIES](_ => 0);
      currentOffset, tableType, dictSize := 0, ClearedTable, 0;
    }

    /** LZ4_initStream on a state that may hold anything. */
    method Init()
      requires hashTable.Length == HASHTABLE_ENTRIES
      modifies this, hashTable
      ensures Valid()
      ensures currentOffset == 0 && tableType == ClearedTable && dictSize == 0
    {
      forall k | 0 <= k < hashTable.Length {
        hashTable[k] := 0;
      }
      currentOffset, tableType, dictSize := 0, ClearedTable, 0;
    }

    /** The caller's dictIssue argument: dictSmall only for a reused byU16 table. */
    predicate DictSmall(wanted: TableType)
      reads this
    {
      wanted == ByU16 && currentOffset != 0
    }

    /** The table after LZ4_prepareTable: a search from currentOffset on can be trusted. */
    ghost predicate Prepared(inputSize: nat, wanted: TableType)
      reads this, hashTable
    {
      && Valid() && wanted != ClearedTable && dictSize == 0
      && TableOk(hashTable[..], wanted, currentOffset, currentOffset + 1, DictSmall(wanted))
      && (if wanted == ByU16 then currentOffset == 0 || currentOffset + inputSize < 0xFFFF
          else currentOffset <= 0x4000_0000 + 65536)
    }

    /** LZ4_prepareTable. */
    method PrepareTable(inputSize: nat, wanted: TableType)
      requires Valid() && wanted != ClearedTable
      modifies this, hashTable
      ensures Prepared(inputSize, wanted)
    {
      if tableType != ClearedTable {
        if || tableType != wanted
           || (wanted == ByU16 && currentOffset + inputSize >= 0xFFFF)
           || (wanted == ByU32 && currentOffset > 0x4000_0000)
           || inputSize >= 4096
        {
          forall k | 0 <= k < hashTable.Length {
            hashTable[k] := 0;
          }
          currentOffset, tableType := 0, ClearedTable;
        }
      }
      if currentOffset != 0 && wanted == ByU32 {
        currentOffset := currentOffset + 65536;
      }
      dictSize := 0;
    }

    // --------------------------------------------------------- searching

    function HashPosition(hash: seq<byte> -> nat, src: seq<byte>, p: nat): (h: nat)
      requires p + 8 <= |src|
      reads this
      ensures h < HASHTABLE_ENTRIES
    {
      if tableType == ByU16 then hash(src[p..p + 4]) % 8192 else hash(src[p..p + 8]) % 4096
    }

    /** Everything in the table below startIndex + position can be used or is refused. */
    ghost predicate Searchable(startIndex: nat, position: nat, dictSmall: bool, inputSize: nat)
      reads this, hashTable
    {
      && hashTable.Length == HASHTABLE_ENTRIES && tableType != ClearedTable
      && (tableType == ByU16 ==> startIndex + inputSize <= 65536 + MFLIMIT - 1)
      && TableOk(hashTable[..], tableType, startIndex, startIndex + position, dictSmall)
    }

    lemma SearchOver(startIndex: nat, position: nat, dictSmall: bool, inputSize: nat)
      requires Searchable(startIndex, position, dictSmall, inputSize) && position <= inputSize
      ensures Searchable(startIndex, inputSize, dictSmall, inputSize)
    {
      TableMore(hashTable[..], tableType, startIndex, startIndex + position, startIndex + inputSize, dictSmall);
    }

    /** LZ4_putIndexOnHash. */
    method PutIndexOnHash(position: nat, h: nat, ghost limit: nat, startIndex: nat, ghost dictSmall: bool, ghost inputSize: nat)
      requires Searchable(startIndex, limit, dictSmall, inputSize)
      requires h < HASHTABLE_ENTRIES && position + MFLIMIT <= inputSize
      modifies hashTable
      ensures Searchable(startIndex, if position < limit then limit else position + 1, dictSmall, inputSize)
      ensures hashTable[h] == if tableType == ByU16 then (startIndex + position) % 65536 else startIndex + position
    {
      var idx: nat := startIndex + position;
      ghost var limit' := if position < limit then limit else position + 1;
      ghost var before := hashTable[..];
      hashTable[h] := if tableType == ByU16 then idx % 65536 else idx;
      assert hashTable[..] == before[h := idx];
      TableMore(before, tableType, startIndex, startIndex + limit, startIndex + limit', dictSmall);
    }

    /** What was read from the table is a position with the same four bytes, near enough. */
    ghost predicate Hits(entry: nat, src: seq<byte>, ip: nat, startIndex: nat, dictSmall: bool)
      reads this
    {
      && !(dictSmall && entry < startIndex) && !(tableType != ByU16 && entry + DISTANCE_MAX < startIndex + ip)
      && startIndex <= entry < startIndex + ip && ip + 4 <= |src| && SameWord(src, entry - startIndex, ip, 4)
    }

    /** One candidate: read the table at h, register the current position, test what was read. */
    method TryPosition(src: seq<byte>, ip: nat, h: nat, startIndex: nat, dictSmall: bool) returns (hit: bool, match_: nat)
      requires 1 <= ip && ip + MFLIMIT <= |src| && h < HASHTABLE_ENTRIES
      requires Searchable(startIndex, ip, dictSmall, |src|)
      modifies hashTable
      ensures Searchable(startIndex, ip + 1, dictSmall, |src|)
      ensures hit ==> IsMatch(src, ip, match_)
      ensures hit <==> old(Hits(hashTable[h], src, ip, startIndex, dictSmall))
      ensures hit ==> match_ == old(hashTable[h]) - startIndex
    {
      var current := startIndex + ip;
      var matchIndex := hashTable[h];
      assert EntryOk(hashTable[..][h], tableType, startIndex, current, dictSmall);
      PutIndexOnHash(ip, h, ip, startIndex, dictSmall, |src|);
      hit, match_ := false, 0;
      if dictSmall && matchIndex < startIndex {
        return;
      }
      if tableType != ByU16 && matchIndex + DISTANCE_MAX < current {
        return;
      }
      match_ := matchIndex - startIndex;
      SameWordPeriodic(src, match_, ip, 4, ip - match_);
      hit := SameWord(src, match_, ip, 4);
    }

    /** The search loop: positions further and further apart until one has a match. */
    method FindMatch(src: seq<byte>, ip0: nat, hash: seq<byte> -> nat, acceleration: nat, startIndex: nat, dictSmall: bool)
      returns (found: bool, ip: nat, match_: nat)
      requires 1 <= ip0 && ip0 + MFLIMIT <= |src| + 1 && acceleration >= 1
      requires Searchable(startIndex, ip0, dictSmall, |src|)
      modifies hashTable
      ensures found ==> ip0 <= ip && IsMatch(src, ip, match_) && Searchable(startIndex, ip + 1, dictSmall, |src|)
      ensures !found ==> Searchable(startIndex, |src|, dictSmall, |src|)
      ensures ip0 + MFLIMIT <= |src| && old(Hits(hashTable[HashPosition(hash, src, ip0)], src, ip0, startIndex, dictSmall)) ==>
        found && ip == ip0 && match_ == old(hashTable[HashPosition(hash, src, ip0)]) - startIndex
    {
      var mflimitPlusOne := |src| - MFLIMIT + 1;
      var forwardIp, step, searchMatchNb := ip0, 1, acceleration * 64;
      var forwardH: nat := HashPosition(hash, src, forwardIp);
      while true
        invariant ip0 <= forwardIp <= mflimitPlusOne && step >= 1 && searchMatchNb >= 64
        invariant forwardH < HASHTABLE_ENTRIES
        invariant Searchable(startIndex, forwardIp, dictSmall, |src|)
        invariant forwardIp == ip0 ==> step == 1 && forwardH == HashPosition(hash, src, ip0) && hashTable[..] == old(hashTable[..])
        invariant forwardIp > ip0 ==> ip0 + MFLIMIT > |src| || !old(Hits(hashTable[HashPosition(hash, src, ip0)], src, ip0, startIndex, dictSmall))
        decreases mflimitPlusOne - forwardIp
      {
        var h := forwardH;
        ip := forwardIp;
        forwardIp := forwardIp + step;
        step := searchMatchNb / 64;
        searchMatchNb := searchMatchNb + 1;
        if forwardIp > mflimitPlusOne {
          TableMore(hashTable[..], tableType, startIndex, startIndex + ip, startIndex + |src|, dictSmall);
          return false, ip, 0;
        }
        forwardH := HashPosition(hash, src, forwardIp);
        found, match_ := TryPosition(src, ip, h, startIndex, dictSmall);
        if found {
          return;
        }
        TableMore(hashTable[..], tableType, startIndex, startIndex + ip + 1, startIndex + forwardIp, dictSmall);
      }
    }

    /** After a match: register ip - 2, then try ip itself. */
    method TestNext(src: seq<byte>, ip: nat, hash: seq<byte> -> nat, startIndex: nat, dictSmall: bool, ghost filled: nat)
      returns (hit: bool, match_: nat)
      requires 2 <= filled + 1 < ip && ip + MFLIMIT <= |src|
      requires Searchable(startIndex, filled + 1, dictSmall, |src|)
      modifies hashTable
      ensures Searchable(startIndex, ip + 1, dictSmall, |src|)
      ensures hit ==> IsMatch(src, ip, match_)
    {
      var h := HashPosition(hash, src, ip - 2);
      PutIndexOnHash(ip - 2, h, filled + 1, startIndex, dictSmall, |src|);
      TableMore(hashTable[..], tableType, startIndex, startIndex + (if ip - 2 < filled + 1 then filled + 1 else ip - 1), startIndex + ip, dictSmall);
      h := HashPosition(hash, src, ip);
      hit, match_ := TryPosition(src, ip, h, startIndex, dictSmall);
    }

    // ---------------------------------------------------------- encoding

    /** From _next_match on: encodes the match at ip and every match that follows without literals
        between.  `more` tells whether the search goes on behind ip. */
    method EncodeMatches(src: seq<byte>, dst: array<byte>, t: Target, token0: nat, op0: nat, ip0: nat, match0: nat,
                         hash: seq<byte> -> nat, startIndex: nat, dictSmall: bool,
                         ghost filled0: nat, ghost ss0: Sequences, ghost anchor0: nat)
      returns (ok: bool, more: bool, op: nat, ip: nat, ghost ss: Sequences)
      requires hashTable as object != dst as object
      requires Roomy(t, dst, |src|) && t.dest <= token0 < op0 <= t.end && anchor0 <= ip0 <= filled0 && ip0 <= |src|
      requires Emitted(Out(dst[..], t.dest, token0), src, ss0, anchor0)
      requires Out(dst[..], token0, op0) == EncodeLiterals(src[anchor0..ip0], 0)
      requires op0 == token0 + 1 + LengthSize(ip0 - anchor0) + (ip0 - anchor0) && (t.limited ==> op0 + 2 <= t.end)
      requires filled0 + MFLIMIT <= |src| && 1 <= filled0
      requires match0 < ip0 && IsMatchTo(src, ip0, ip0 - match0, filled0 + MINMATCH)
      requires Searchable(startIndex, filled0 + 1, dictSmall, |src|)
      modifies hashTable, dst
      ensures Untouched(dst[..], old(dst[..]), t.dest, t.end)
      ensures ok || t.limited
      ensures !ok || !more ==> Searchable(startIndex, |src|, dictSmall, |src|)
      ensures ok ==> ss != Start && filled0 < ip && ip + LASTLITERALS <= |src| && t.dest <= op <= t.end
      ensures ok ==> Emitted(Out(dst[..], t.dest, op), src, ss, ip)
      ensures ok && more ==> ip + MFLIMIT <= |src| && Searchable(startIndex, ip + 1, dictSmall, |src|)
      ensures AllSame(src) ==> (ok <==> RunFits(src, t, op0, ip0))
      ensures ok && AllSame(src) ==> !more && ip == |src| - LASTLITERALS && Added(src, ss, ss0, anchor0, ip0, match0, ip)
    {
      ghost var was := dst[..];
      UntouchedSame(was, t.dest, t.end);
      ghost var filled, anchor := filled0, anchor0;
      var token, match_ := token0, match0;
      op, ip, ss := op0, ip0, ss0;
      assert Matching(src, dst, t, token, op, ip, match_, startIndex, dictSmall, filled, ss, anchor);
      hide Untouched, Matching, Emitted, Out, Searchable, Roomy, AllSame, RunFits, Added;
      while true
        invariant Matching(src, dst, t, token, op, ip, match_, startIndex, dictSmall, filled, ss, anchor)
        invariant filled0 <= filled && Untouched(dst[..], was, t.dest, t.end) && ip <= |src|
        invariant AllSame(src) ==> op == op0 && ss == ss0 && anchor == anchor0 && ip == ip0 && match_ == match0
        decreases |src| - ip
      {
        ghost var before := dst[..];
        var again;
        ok, more, again, token, op, ip, match_, ss := EncodeOneMatch(src, dst, t, token, op, ip, match_, hash, startIndex, dictSmall, filled, ss, anchor);
        UntouchedTwice(was, before, dst[..], t.dest, t.end);
        if !again {
          return;
        }
        filled, anchor := ip, ip;
      }
    }

    lemma RunEnds(src: seq<byte>, ip0: nat, match0: nat, e: nat)
      requires match0 <= ip0 <= e && e + LASTLITERALS <= |src| && (e + LASTLITERALS < |src| ==> !SameAt(src, e, ip0 - match0))
      ensures AllSame(src) ==> e == |src| - LASTLITERALS
    {
    }

    lemma RunRoom(src: seq<byte>, t: Target, op: nat)
      requires AllSame(src)
      ensures RunSizeFits(src, t, op) <==> !t.limited || (op + 10 <= t.end && RunFits(src, t, op + 2, 1))
    {
    }

    /** The first position that is searched meets the first byte of a run. */
    lemma RunHits(src: seq<byte>, startIndex: nat, dictSmall: bool)
      requires AllSame(src)
      ensures Hits(startIndex, src, 1, startIndex, dictSmall)
    {
      RunWords(src);
    }

    lemma RunIsEncoded(src: seq<byte>, ss: Sequences, ip: nat)
      requires AllSame(src) && Added(src, ss, Start, 0, 1, 0, ip) && ip == |src| - LASTLITERALS
      ensures ss == RunSequences(src)
    {
    }

    /** One match, and the test for another one right behind it. */
    method EncodeOneMatch(src: seq<byte>, dst: array<byte>, t: Target, token0: nat, op0: nat, ip0: nat, match0: nat,
                          hash: seq<byte> -> nat, startIndex: nat, dictSmall: bool,
                          ghost filled: nat, ghost ss0: Sequences, ghost anchor: nat)
      returns (ok: bool, more: bool, again: bool, token: nat, op: nat, ip: nat, match_: nat, ghost ss: Sequences)
      requires hashTable as object != dst as object
      requires Matching(src, dst, t, token0, op0, ip0, match0, startIndex, dictSmall, filled, ss0, anchor)
      modifies hashTable, dst
      ensures Untouched(dst[..], old(dst[..]), t.dest, t.end)
      ensures ok || (t.limited && !again)
      ensures !again && (!ok || !more) ==> Searchable(startIndex, |src|, dictSmall, |src|)
      ensures ok ==> ss != Start && filled < ip && ip + LASTLITERALS <= |src| && t.dest <= op <= t.end
      ensures ok && !again ==> Emitted(Out(dst[..], t.dest, op), src, ss, ip)
      ensures ok && more && !again ==> ip + MFLIMIT <= |src| && Searchable(startIndex, ip + 1, dictSmall, |src|)
      ensures again ==> ip0 < ip && Matching(src, dst, t, token, op, ip, match_, startIndex, dictSmall, ip, ss, ip)
      ensures AllSame(src) ==> (ok <==> RunFits(src, t, op0, ip0))
      ensures ok && AllSame(src) ==> !more && !again && ip == |src| - LASTLITERALS && Added(src, ss, ss0, anchor, ip0, match0, ip)
    {
      ghost var was := dst[..];
      RoomyIs(t, dst, |src|);
      hide Emitted, Out, Untouched, EncodeLiterals, LengthSize, Roomy, AllSame, Added;
      more, again, token, match_ := false, false, token0, match0;
      ok, op, ip, ss := EncodeMatchAt(src, dst, t, token, op0, ip0, match_, ss0, anchor);
      PastFilled(src, ip0, match_, filled, ip);
      RunEnds(src, ip0, match_, ip);
      if !ok || ip >= |src| - MFLIMIT + 1 {
        SearchOver(startIndex, filled + 1, dictSmall, |src|);
        return;
      }
      hide Matching, Searchable, IsMatchTo;
      ghost var mid := dst[..];
      again, token, op, match_ := AnotherMatch(src, dst, t, op, ip, hash, startIndex, dictSmall, filled, ss);
      UntouchedTwice(was, mid, dst[..], t.dest, t.end);
      more := !again;
    }

    /** The test for a match right behind the last one; its token, if there is one. */
    method AnotherMatch(src: seq<byte>, dst: array<byte>, t: Target, op0: nat, ip: nat, hash: seq<byte> -> nat, startIndex: nat, dictSmall: bool,
                        ghost filled: nat, ghost ss: Sequences)
      returns (again: bool, token: nat, op: nat, match_: nat)
      requires hashTable as object != dst as object && Roomy(t, dst, |src|) && t.dest <= op0 <= t.end && (t.limited ==> op0 + 6 <= t.end)
      requires Emitted(Out(dst[..], t.dest, op0), src, ss, ip) && 2 <= filled + 1 < ip && ip + MFLIMIT <= |src|
      requires Searchable(startIndex, filled + 1, dictSmall, |src|)
      modifies hashTable, dst
      ensures Untouched(dst[..], old(dst[..]), t.dest, t.end)
      ensures if again then Matching(src, dst, t, token, op, ip, match_, startIndex, dictSmall, ip, ss, ip) && t.dest <= op <= t.end
              else op == op0 && Emitted(Out(dst[..], t.dest, op), src, ss, ip) && Searchable(startIndex, ip + 1, dictSmall, |src|)
    {
      ghost var was := dst[..];
      RoomyIs(t, dst, |src|);
      UntouchedSame(was, t.dest, t.end);
      hide Emitted, Out, Untouched, EncodeLiterals, LengthSize, Roomy;
      token, op := op0, op0;
      again, match_ := TestNext(src, ip, hash, startIndex, dictSmall, filled);
      assert dst[..] == was;
      if again {
        op := EmptyLiterals(src, dst, t, token, ip, ss);
      }
    }

    /** The state at _next_match. */
    ghost predicate Matching(src: seq<byte>, dst: array<byte>, t: Target, token: nat, op: nat, ip: nat, match_: nat,
                             startIndex: nat, dictSmall: bool, filled: nat, ss: Sequences, anchor: nat)
      reads this, hashTable, dst
    {
      && Roomy(t, dst, |src|) && t.dest <= token < op <= t.end && anchor <= ip <= filled && ip <= |src|
      && Emitted(Out(dst[..], t.dest, token), src, ss, anchor)
      && Out(dst[..], token, op) == EncodeLiterals(src[anchor..ip], 0)
      && op == token + 1 + LengthSize(ip - anchor) + (ip - anchor) && (t.limited ==> op + 2 <= t.end)
      && filled + MFLIMIT <= |src| && 1 <= filled
      && match_ < ip && IsMatchTo(src, ip, ip - match_, filled + MINMATCH)
      && Searchable(startIndex, filled + 1, dictSmall, |src|)
    }

    /** The literals up to ip0, and the matches from there on. */
    method EncodeFrom(src: seq<byte>, dst: array<byte>, t: Target, op0: nat, ip0: nat, match0: nat, anchor: nat,
                      hash: seq<byte> -> nat, startIndex: nat, dictSmall: bool, ghost filled: nat, ghost ss0: Sequences)
      returns (ok: bool, more: bool, op: nat, ip: nat, ghost ss: Sequences)
      requires hashTable as object != dst as object
      requires Roomy(t, dst, |src|) && t.dest <= op0 <= t.end && anchor <= ip0 <= filled && 1 <= filled && filled + MFLIMIT <= |src|
      requires Emitted(Out(dst[..], t.dest, op0), src, ss0, anchor)
      requires match0 < ip0 && IsMatchTo(src, ip0, ip0 - match0, filled + MINMATCH) && Searchable(startIndex, filled + 1, dictSmall, |src|)
      modifies hashTable, dst
      ensures Untouched(dst[..], old(dst[..]), t.dest, t.end)
      ensures ok || t.limited
      ensures !ok || !more ==> Searchable(startIndex, |src|, dictSmall, |src|)
      ensures ok ==> ss != Start && filled < ip && ip + LASTLITERALS <= |src| && t.dest <= op <= t.end && Emitted(Out(dst[..], t.dest, op), src, ss, ip)
      ensures ok && more ==> ip + MFLIMIT <= |src| && Searchable(startIndex, ip + 1, dictSmall, |src|)
      ensures AllSame(src) && ip0 == anchor + 1 ==> (ok <==> !t.limited || (op0 + 10 <= t.end && RunFits(src, t, op0 + 2, ip0)))
      ensures ok && AllSame(src) ==> !more && ip == |src| - LASTLITERALS && Added(src, ss, ss0, anchor, ip0, match0, ip)
    {
      ghost var was := dst[..];
      RoomyIs(t, dst, |src|);
      assert LengthSize(1) == 0;
      hide Emitted, Out, Untouched, EncodeLiterals, LengthBytes, LengthSize, Roomy, Periodic, Searchable, AllSame, RunFits, Added;
      ip, ss := ip0, ss0;
      ok, op := EncodeLiteralsAt(src, dst, t, op0, anchor, ip0, ss);
      if !ok {
        SearchOver(startIndex, filled + 1, dictSmall, |src|);
        more := false;
        return;
      }
      ghost var mid := dst[..];
      ok, more, op, ip, ss := EncodeMatches(src, dst, t, op0, op, ip0, match0, hash, startIndex, dictSmall, filled, ss, anchor);
      UntouchedTwice(was, mid, dst[..], t.dest, t.end);
    }

    /** The match that was found: catch up, literals, matches. */
    method EncodeFound(src: seq<byte>, dst: array<byte>, t: Target, op0: nat, ip0: nat, match0: nat, anchor0: nat,
                       hash: seq<byte> -> nat, startIndex: nat, dictSmall: bool, ghost ss0: Sequences)
      returns (ok: bool, more: bool, op: nat, ip: nat, anchor: nat, ghost ss: Sequences)
      requires hashTable as object != dst as object
      requires Roomy(t, dst, |src|) && t.dest <= op0 <= t.end && anchor0 <= ip0 && 1 <= ip0
      requires Emitted(Out(dst[..], t.dest, op0), src, ss0, anchor0)
      requires IsMatch(src, ip0, match0) && Searchable(startIndex, ip0 + 1, dictSmall, |src|)
      modifies hashTable, dst
      ensures Untouched(dst[..], old(dst[..]), t.dest, t.end)
      ensures ok || t.limited
      ensures !ok || !more ==> Searchable(startIndex, |src|, dictSmall, |src|)
      ensures ok ==> t.dest <= op <= t.end && Emitted(Out(dst[..], t.dest, op), src, ss, anchor) && anchor + LASTLITERALS <= |src|
      ensures ok && more ==> ip0 < ip && anchor <= ip && ip + MFLIMIT <= |src| + 1 && Searchable(startIndex, ip, dictSmall, |src|)
      ensures AllSame(src) && FromStart(ip0, match0, anchor0, ss0) ==> (ok <==> RunSizeFits(src, t, op0))
      ensures ok && AllSame(src) && FromStart(ip0, match0, anchor0, ss0) ==> !more && anchor == |src| - LASTLITERALS && ss == RunSequences(src)
    {
      hide Emitted, Out, Untouched, Roomy, Periodic, Searchable, AllSame, RunFits, RunSizeFits, Added, RunSequences;
      var match_;
      ip, match_ := CatchUp(src, ip0, match0, anchor0);
      ok, more, op, ip, ss := EncodeFrom(src, dst, t, op0, ip, match_, anchor0, hash, startIndex, dictSmall, ip0, ss0);
      anchor := ip;
      if AllSame(src) && FromStart(ip0, match0, anchor0, ss0) {
        RunRoom(src, t, op0);
        if ok { RunIsEncoded(src, ss, ip); }
      }
      if more {
        ip := ip + 1;
      }
    }

    /** The first match of an input, if its first byte is repeated. */
    ghost predicate FromStart(ip: nat, match_: nat, anchor: nat, ss: Sequences) {
      ip == 1 && match_ == 0 && anchor == 0 && ss == Start
    }

    /** One round of the main loop: search, catch up, literals, matches. */
    method EncodeRound(src: seq<byte>, dst: array<byte>, t: Target, op0: nat, ip0: nat, anchor0: nat, acceleration: nat,
                       hash: seq<byte> -> nat, startIndex: nat, dictSmall: bool, ghost ss0: Sequences)
      returns (ok: bool, more: bool, op: nat, ip: nat, anchor: nat, ghost ss: Sequences)
      requires hashTable as object != dst as object
      requires Roomy(t, dst, |src|) && t.dest <= op0 <= t.end && anchor0 <= ip0
      requires Emitted(Out(dst[..], t.dest, op0), src, ss0, anchor0)
      requires 1 <= ip0 && ip0 + MFLIMIT <= |src| + 1 && acceleration >= 1
      requires Searchable(startIndex, ip0, dictSmall, |src|)
      requires ss0 != Start ==> anchor0 + LASTLITERALS <= |src|
      modifies hashTable, dst
      ensures Untouched(dst[..], old(dst[..]), t.dest, t.end)
      ensures ok || t.limited
      ensures !ok || !more ==> Searchable(startIndex, |src|, dictSmall, |src|)
      ensures ok ==> t.dest <= op <= t.end && Emitted(Out(dst[..], t.dest, op), src, ss, anchor)
      ensures ok ==> ss != Start ==> anchor + LASTLITERALS <= |src|
      ensures ok && more ==> ip0 < ip && anchor <= ip && ip + MFLIMIT <= |src| + 1 && Searchable(startIndex, ip, dictSmall, |src|)
      ensures AllSame(src) && FromStart(ip0, 0, anchor0, ss0) && old(hashTable[HashPosition(hash, src, 1)]) == startIndex ==> (ok <==> RunSizeFits(src, t, op0))
      ensures ok && AllSame(src) && FromStart(ip0, 0, anchor0, ss0) && old(hashTable[HashPosition(hash, src, 1)]) == startIndex ==>
        !more && anchor == |src| - LASTLITERALS && ss == RunSequences(src)
    {
      ghost var was := dst[..];
      UntouchedSame(was, t.dest, t.end);
      hide Emitted, Out, Untouched, AllSame, RunSizeFits, Hits, RunSequences, HashPosition;
      if AllSame(src) { RunHits(src, startIndex, dictSmall); }
      op, anchor, ss := op0, anchor0, ss0;
      var found, match_;
      found, ip, match_ := FindMatch(src, ip0, hash, acceleration, startIndex, dictSmall);
      assert dst[..] == was;
      if !found {
        return true, false, op, ip, anchor, ss;
      }
      ok, more, op, ip, anchor, ss := EncodeFound(src, dst, t, op, ip, match_, anchor, hash, startIndex, dictSmall, ss);
    }

    /** The state takes the input in before its bytes are searched. */
    method Register(inputSize: nat, wanted: TableType, ghost dictSmall: bool) returns (startIndex: nat)
      requires Prepared(inputSize, wanted) && dictSmall == DictSmall(wanted)
      requires 0 < inputSize <= MAX_INPUT_SIZE && (wanted == ByU16 ==> inputSize < LZ4_64KLIMIT)
      modifies this`dictSize, this`currentOffset, this`tableType
      ensures startIndex == old(currentOffset) && tableType == wanted && dictSize == old(dictSize) + inputSize
      ensures currentOffset == startIndex + inputSize < 0x1_0000_0000
      ensures Searchable(startIndex, 1, dictSmall, inputSize)
    {
      startIndex := currentOffset;
      dictSize, currentOffset, tableType := dictSize + inputSize, currentOffset + inputSize, wanted;
    }

    /** LZ4_compress_generic_validated, noDict; 0 means refused. */
    method CompressValidated(src: seq<byte>, dst: array<byte>, t: Target, wanted: TableType, dictSmall: bool, acceleration: nat,
                             hash: seq<byte> -> nat)
      returns (r: nat)
      requires hashTable as object != dst as object
      requires 0 < |src| <= MAX_INPUT_SIZE && acceleration >= 1 && Roomy(t, dst, |src|)
      requires Prepared(|src|, wanted) && dictSmall == DictSmall(wanted)
      modifies this, hashTable, dst
      ensures Valid()
      ensures Untouched(dst[..], old(dst[..]), t.dest, t.end)
      ensures r == 0 ==> t.limited || (wanted == ByU16 && |src| >= LZ4_64KLIMIT)
      ensures BlockHeld(dst[..], t, r, src)
      ensures r > 0 && AllSame(src) ==> r == RunSize(|src|)
      ensures AllSame(src) && (wanted == ByU16 ==> |src| < LZ4_64KLIMIT) ==> (r > 0 <==> RunSizeFits(src, t, t.dest))
    {
      ghost var was := dst[..];
      RoomyIs(t, dst, |src|);
      UntouchedSame(was, t.dest, t.end);
      PreparedValid(|src|, wanted);
      hide Emitted, Untouched, IsCompressed, Out, Roomy, Prepared, Searchable, Valid, TableOk, CompressBound, BlockHeld, AllSame, RunSequences, RunSize, RunSizeFits, EncodeSequences, EncodeLiterals, LastRoom;
      if wanted == ByU16 && |src| >= LZ4_64KLIMIT {
        NoneHeld(was, t, src);
        return 0;
      }
      var startIndex := Register(|src|, wanted, dictSmall);
      var ok, op, anchor;
      ghost var ss;
      ok, op, anchor, ss := EncodeAll(src, dst, t, acceleration, hash, startIndex, dictSmall);
      SearchableValid(startIndex, dictSmall, |src|);
      if !ok {
        NoneHeld(dst[..], t, src);
        return 0;
      }
      r := BlockSize(src, dst, t, op, anchor, ss, was);
      if AllSame(src) { RunSizeIs(src, t); }
    }

    /** First byte and main loop; inputs below 13 bytes are all literals. */
    method EncodeAll(src: seq<byte>, dst: array<byte>, t: Target, acceleration: nat, hash: seq<byte> -> nat,
                     startIndex: nat, dictSmall: bool)
      returns (ok: bool, op: nat, anchor: nat, ghost ss: Sequences)
      requires hashTable as object != dst as object
      requires 0 < |src| && Roomy(t, dst, |src|) && acceleration >= 1
      requires Searchable(startIndex, 1, dictSmall, |src|)
      modifies hashTable, dst
      ensures Untouched(dst[..], old(dst[..]), t.dest, t.end)
      ensures ok || t.limited
      ensures Searchable(startIndex, |src|, dictSmall, |src|)
      ensures ok ==> t.dest <= op <= t.end && Emitted(Out(dst[..], t.dest, op), src, ss, anchor)
      ensures ok ==> ss != Start ==> anchor + LASTLITERALS <= |src|
      ensures AllSame(src) ==> (ok <==> RunSizeFits(src, t, t.dest))
      ensures ok && AllSame(src) ==> anchor == |src| - LASTLITERALS && ss == RunSequences(src)
    {
      ghost var was := dst[..];
      UntouchedSame(was, t.dest, t.end);
      ok, op, anchor, ss := true, t.dest, 0, Start;
      assert Emitted(Out(was, t.dest, op), src, ss, anchor);
      hide Emitted, Out, Untouched;
      if |src| < LZ4_MINLENGTH {
        TableMore(hashTable[..], tableType, startIndex, startIndex + 1, startIndex + |src|, dictSmall);
        return;
      }
      var h := HashPosition(hash, src, 0);
      PutIndexOnHash(0, h, 1, startIndex, dictSmall, |src|);
      if AllSame(src) { RunWords(src); }
      var ip, more := 1, true;
      assert dst[..] == was;
      while more
        invariant Untouched(dst[..], was, t.dest, t.end) && ok && Roomy(t, dst, |src|)
        invariant t.dest <= op <= t.end && Emitted(Out(dst[..], t.dest, op), src, ss, anchor)
        invariant ss != Start ==> anchor + LASTLITERALS <= |src|
        invariant if more then anchor <= ip && 1 <= ip && ip + MFLIMIT <= |src| + 1 && Searchable(startIndex, ip, dictSmall, |src|)
                  else Searchable(startIndex, |src|, dictSmall, |src|)
        invariant AllSame(src) ==> if more then ip == 1 && op == t.dest && anchor == 0 && ss == Start && hashTable[HashPosition(hash, src, 1)] == startIndex
                               else anchor == |src| - LASTLITERALS && ss == RunSequences(src) && RunSizeFits(src, t, t.dest)
        decreases more, |src| + 1 - ip
      {
        hide Emitted, Out, Untouched;
        ghost var before := dst[..];
        ok, more, op, ip, anchor, ss := EncodeRound(src, dst, t, op, ip, anchor, acceleration, hash, startIndex, dictSmall, ss);
        UntouchedTwice(was, before, dst[..], t.dest, t.end);
        if !ok {
          return;
        }
      }
    }

    lemma PreparedValid(inputSize: nat, wanted: TableType)
      requires Prepared(inputSize, wanted)
      ensures Valid()
    {
      hide TableOk;
    }

    lemma SearchableValid(startIndex: nat, dictSmall: bool, inputSize: nat)
      requires Searchable(startIndex, inputSize, dictSmall, inputSize)
      requires currentOffset == startIndex + inputSize && 0 < inputSize && currentOffset < 0x1_0000_0000
      ensures Valid()
    {
      forall k | 0 <= k < hashTable.Length
        ensures hashTable[k] < currentOffset
      {
        assert EntryOk(hashTable[..][k], tableType, startIndex, startIndex + inputSize, dictSmall);
      }
    }
  }

  /** Catch up: the match may start earlier, back to the anchor. */
  method CatchUp(src: seq<byte>, ip0: nat, match0: nat, anchor: nat) returns (ip: nat, match_: nat)
    requires IsMatch(src, ip0, match0) && anchor <= ip0
    ensures anchor <= ip <= ip0 && match_ <= match0 && ip - match_ == ip0 - match0
    ensures IsMatchTo(src, ip, ip - match_, ip0 + MINMATCH)
    ensures match0 == 0 ==> ip == ip0
  {
    ip, match_ := ip0, match0;
    while ip > anchor && match_ > 0 && src[ip - 1] == src[match_ - 1]
      invariant anchor <= ip <= ip0 && match_ <= match0 && match_ < ip && ip - match_ == ip0 - match0
      invariant IsMatchTo(src, ip, ip - match_, ip0 + MINMATCH)
    {
      ip, match_ := ip - 1, match_ - 1;
      assert SameAt(src, ip, ip - match_);
    }
  }

  // ------------------------------------------------------------ emitting

  /** The output of one call: where it starts, where the buffer ends, whether that is a limit. */
  datatype Target = Target(dest: nat, end: nat, limited: bool)

  /** Without a limit there is room for the worst case. */
  ghost predicate Roomy(t: Target, dst: array<byte>, inputSize: nat) {
    t.dest <= t.end <= dst.Length && (!t.limited ==> t.dest + inputSize + inputSize / 255 + 16 <= t.end)
  }

  lemma RoomyIs(t: Target, dst: array<byte>, n: nat)
    requires Roomy(t, dst, n)
    ensures t.dest <= t.end <= dst.Length
  {
  }

  /** Where the match that starts with four equal bytes ends. */
  method MatchEnd(src: seq<byte>, ip: nat, offset: nat) returns (e: nat)
    requires 0 < offset <= ip && ip + MINMATCH + LASTLITERALS <= |src|
    requires IsMatchTo(src, ip, offset, ip + MINMATCH)
    ensures ip + MINMATCH <= e && e + LASTLITERALS <= |src|
    ensures IsMatchTo(src, ip, offset, e)
    ensures e + LASTLITERALS < |src| ==> !SameAt(src, e, offset)
  {
    e := Count(src, ip + MINMATCH, offset, |src| - LASTLITERALS);
    PeriodicJoin(src, ip, ip + MINMATCH, e, offset);
  }

  /** Offset and length of the match at ip, behind the literals already written at token. */
  method EncodeMatchAt(src: seq<byte>, dst: array<byte>, t: Target, token: nat, op0: nat, ip: nat, match_: nat,
                       ghost ss: Sequences, ghost anchor: nat)
    returns (ok: bool, op: nat, e: nat, ghost ss': Sequences)
    requires Roomy(t, dst, |src|) && t.dest <= token < op0 <= t.end && anchor <= ip <= |src|
    requires Emitted(Out(dst[..], t.dest, token), src, ss, anchor)
    requires Out(dst[..], token, op0) == EncodeLiterals(src[anchor..ip], 0)
    requires op0 == token + 1 + LengthSize(ip - anchor) + (ip - anchor) && (t.limited ==> op0 + 2 <= t.end)
    requires match_ < ip && IsMatchTo(src, ip, ip - match_, ip + MINMATCH)
    modifies dst
    ensures Untouched(dst[..], old(dst[..]), t.dest, t.end)
    ensures ok <==> !t.limited || op0 + 8 + (e - ip - MINMATCH + 240) / 255 <= t.end
    ensures ip + MINMATCH <= e && e + LASTLITERALS <= |src|
    ensures e + LASTLITERALS < |src| ==> !SameAt(src, e, ip - match_)
    ensures ok ==> ss' != Start && t.dest <= op <= t.end && (t.limited ==> op + 6 <= t.end)
    ensures ok ==> Emitted(Out(dst[..], t.dest, op), src, ss', e)
    ensures ok ==> Added(src, ss', ss, anchor, ip, match_, e)
  {
    hide EncodeLiterals, Emitted, Out, Untouched, Roomy, LengthSize, Periodic;
    var offset := ip - match_;
    e := MatchEnd(src, ip, offset);
    ok, op, ss' := WriteMatch(src, dst, t, token, op0, ip, offset, e, ss, anchor);
  }

  /** Its bytes, once it is known where it ends. */
  method WriteMatch(src: seq<byte>, dst: array<byte>, t: Target, token: nat, op0: nat, ip: nat, offset: Offset, e: nat,
                    ghost ss: Sequences, ghost anchor: nat)
    returns (ok: bool, op: nat, ghost ss': Sequences)
    requires Roomy(t, dst, |src|) && t.dest <= token < op0 <= t.end && anchor <= ip <= |src|
    requires Emitted(Out(dst[..], t.dest, token), src, ss, anchor)
    requires Out(dst[..], token, op0) == EncodeLiterals(src[anchor..ip], 0)
    requires op0 == token + 1 + LengthSize(ip - anchor) + (ip - anchor) && (t.limited ==> op0 + 2 <= t.end)
    requires IsMatchTo(src, ip, offset, e) && e + LASTLITERALS <= |src|
    modifies dst
    ensures Untouched(dst[..], old(dst[..]), t.dest, t.end)
    ensures ok <==> !t.limited || op0 + 8 + (e - ip - MINMATCH + 240) / 255 <= t.end
    ensures ok ==> ss' != Start && t.dest <= op <= t.end && (t.limited ==> op + 6 <= t.end)
    ensures ok ==> Emitted(Out(dst[..], t.dest, op), src, ss', e) && ss' == Append(ss, src[anchor..ip], offset, e - ip)
  {
    ghost var was := dst[..];
    hide EncodeLiterals, EncodeSequence, Emitted, Out, Untouched, Periodic, Roomy, LengthSize;
    RoomyIs(t, dst, |src|);
    MatchFits(was, dst, t, token, op0, src, ss, anchor, ip, e);
    ghost var literals := src[anchor..ip];
    ghost var length := e - ip;
    ok, op := EncodeMatchCode(dst, token, op0, offset, e - (ip + MINMATCH), t.limited, t.end, literals, length, t.end);
    ss' := ss;
    if ok {
      ss' := SequenceWritten(dst[..], was, t, token, op, src, ss, anchor, ip, offset, length, e);
    }
    UntouchedWider(dst[..], was, token, t.end, t.dest, t.end);
  }

  /** What is encoded so far leaves room for the match. */
  lemma MatchFits(s: seq<byte>, dst: array<byte>, t: Target, token: nat, op: nat, src: seq<byte>, ss: Sequences, anchor: nat, ip: nat, e: nat)
    requires Roomy(t, dst, |src|) && t.dest <= token <= |s| && Emitted(Out(s, t.dest, token), src, ss, anchor)
    requires anchor <= ip && ip + MINMATCH <= e && e + LASTLITERALS <= |src|
    requires op == token + 1 + LengthSize(ip - anchor) + (ip - anchor)
    ensures !t.limited ==> op + 2 + LengthSize(e - (ip + MINMATCH)) + 4 <= t.end
  {
    hide Emitted, LengthSize;
    UsedSoFar(s, t.dest, token, src, ss, anchor);
    RoomForMatch(token - t.dest, anchor, ip, e, |src|);
    assert e - ip - MINMATCH == e - (ip + MINMATCH);
  }

  lemma UsedSoFar(s: seq<byte>, dest: nat, op: nat, src: seq<byte>, ss: Sequences, anchor: nat)
    requires dest <= op <= |s| && Emitted(Out(s, dest, op), src, ss, anchor)
    ensures 255 * (op - dest) <= 256 * anchor
  {
    EncodedSize(ss, |src|);
  }

  lemma SequenceWritten(now: seq<byte>, was: seq<byte>, t: Target, token: nat, op: nat, src: seq<byte>, ss: Sequences,
                        anchor: nat, ip: nat, offset: Offset, length: nat, e: nat) returns (ss': Sequences)
    requires e == ip + length && t.dest <= token <= op <= t.end && Untouched(now, was, token, t.end) && t.end <= |was|
    requires Emitted(Out(was, t.dest, token), src, ss, anchor) && anchor <= ip && IsMatchTo(src, ip, offset, e)
    requires Out(now, token, op) == EncodeSequence(src[anchor..ip], offset, length)
    ensures ss' == Append(ss, src[anchor..ip], offset, length) && Emitted(Out(now, t.dest, op), src, ss', e)
  {
    hide EncodeSequence, Emitted;
    OutputGrows(now, was, t.dest, token, t.end, op, Out(now, token, op));
    ss' := EmitStep(Out(was, t.dest, token), src, ss, anchor, ip, offset, e);
  }

  /** The count runs past everything that was known to match when the search stopped. */
  lemma PastFilled(src: seq<byte>, ip: nat, match_: nat, filled: nat, e: nat)
    requires match_ < ip <= filled && filled + MFLIMIT <= |src| && ip <= e && e + LASTLITERALS <= |src|
    requires IsMatchTo(src, ip, ip - match_, filled + MINMATCH)
    requires e + LASTLITERALS < |src| ==> !SameAt(src, e, ip - match_)
    ensures filled + MINMATCH <= e
  {
  }

  lemma NoLiterals(src: seq<byte>, ip: nat)
    requires ip <= |src|
    ensures EncodeLiterals(src[ip..ip], 0) == [0]
  {
    assert src[ip..ip] == [];
  }

  /** The token of a sequence without literals: *token = 0. */
  method EmptyLiterals(src: seq<byte>, dst: array<byte>, t: Target, token: nat, ip: nat, ghost ss: Sequences) returns (op: nat)
    requires Roomy(t, dst, |src|) && t.dest <= token <= t.end && ip + MFLIMIT <= |src| && (t.limited ==> token + 6 <= t.end)
    requires Emitted(Out(dst[..], t.dest, token), src, ss, ip)
    modifies dst
    ensures op == token + 1 && token < t.end && (t.limited ==> op + 2 <= t.end)
    ensures Untouched(dst[..], old(dst[..]), t.dest, t.end)
    ensures Emitted(Out(dst[..], t.dest, token), src, ss, ip)
    ensures Out(dst[..], token, op) == EncodeLiterals(src[ip..ip], 0)
  {
    ghost var was := dst[..];
    hide Emitted, EncodeSequences, Expand;
    UsedSoFar(was, t.dest, token, src, ss, ip);
    RoomForLiterals(token - t.dest, ip, ip, |src|);
    UntouchedSame(was, token, t.end);
    PutByte(dst, token, 0, token, t.end, was);
    op := token + 1;
    NoLiterals(src, ip);
    assert Out(was, token, token) == [];
    hide EncodeLiterals;
    OutputGrows(dst[..], was, t.dest, token, t.end, token, []);
    UntouchedWider(dst[..], was, token, t.end, t.dest, t.end);
  }

  /** A compressed block of src: well formed, and decoding to src. */
  ghost predicate IsCompressed(block: seq<byte>, src: seq<byte>) {
    DecodeFrom(block, 0, []) == Some(src) && WellFormedFrom(block, 0, 0, |src|)
  }

  lemma BlockWritten(now: seq<byte>, mid: seq<byte>, t: Target, op: nat, e: nat, src: seq<byte>, ss: Sequences, anchor: nat)
    requires t.dest <= op <= e <= t.end <= |mid| && Untouched(now, mid, op, t.end)
    requires Emitted(Out(mid, t.dest, op), src, ss, anchor)
    requires anchor <= |src| && Out(now, op, e) == EncodeLiterals(src[anchor..], 0)
    requires ss != Start ==> anchor + LASTLITERALS <= |src|
    ensures IsCompressed(Out(now, t.dest, e), src)
  {
    hide Emitted, EncodeLiterals, DecodeFrom, WellFormedFrom;
    OutputGrows(now, mid, t.dest, op, t.end, e, Out(now, op, e));
    BlockDone(Out(now, t.dest, e), Out(mid, t.dest, op), src, ss, anchor);
  }

  lemma WrittenSize(now: seq<byte>, mid: seq<byte>, t: Target, op: nat, e: nat, src: seq<byte>, ss: Sequences, anchor: nat)
    requires t.dest <= op <= e <= |now| && op <= |mid| && Emitted(Out(mid, t.dest, op), src, ss, anchor)
    requires anchor <= |src| && Out(now, op, e) == EncodeLiterals(src[anchor..], 0)
    ensures e == t.dest + |EncodeSequences(ss)| + |EncodeLiterals(src[anchor..], 0)|
  {
    hide EncodeLiterals, EncodeSequences;
  }

  /** Last literals; e is where the whole block ends. */
  method FinishBlock(src: seq<byte>, dst: array<byte>, t: Target, op: nat, anchor: nat, ghost ss: Sequences) returns (ok: bool, e: nat)
    requires Roomy(t, dst, |src|) && t.dest <= op <= t.end
    requires Emitted(Out(dst[..], t.dest, op), src, ss, anchor)
    requires ss != Start ==> anchor + LASTLITERALS <= |src|
    modifies dst
    ensures Untouched(dst[..], old(dst[..]), t.dest, t.end)
    ensures ok || t.limited
    ensures anchor <= |src| && (ok <==> !t.limited || op + LastRoom(|src| - anchor) <= t.end)
    ensures ok ==> t.dest < e <= t.end && IsCompressed(Out(dst[..], t.dest, e), src)
    ensures ok && !t.limited ==> e <= t.dest + |src| + |src| / 255 + 16
    ensures ok ==> anchor <= |src| && e == t.dest + |EncodeSequences(ss)| + |EncodeLiterals(src[anchor..], 0)|
  {
    ghost var mid := dst[..];
    hide Emitted, LengthBytes, IsCompressed, EncodeLiterals, Out, Untouched, LastRoom;
    assert anchor <= |src| by {
      EmittedAnchor(Out(mid, t.dest, op), src, ss, anchor);
    }
    UsedSoFar(mid, t.dest, op, src, ss, anchor);
    RoomForLast(op - t.dest, anchor, |src|);
    ok, e := EncodeLastLiterals(src, dst, op, anchor, t.limited, t.end, t.end);
    UntouchedWider(dst[..], mid, op, t.end, t.dest, t.end);
    if ok {
      BlockWritten(dst[..], mid, t, op, e, src, ss, anchor);
      WrittenSize(dst[..], mid, t, op, e, src, ss, anchor);
    }
  }

  /** A size other than 0 is that of a block of the input, which keeps to the bound if it is not limited. */
  ghost predicate BlockHeld(s: seq<byte>, t: Target, r: nat, src: seq<byte>) {
    && t.dest <= t.end <= |s| && |src| <= MAX_INPUT_SIZE
    && (r > 0 ==> t.dest + r <= t.end && IsCompressed(Out(s, t.dest, t.dest + r), src))
    && (r > 0 && !t.limited ==> r <= CompressBound(|src|))
  }

  lemma NoneHeld(s: seq<byte>, t: Target, src: seq<byte>)
    requires t.dest <= t.end <= |s| && |src| <= MAX_INPUT_SIZE
    ensures BlockHeld(s, t, 0, src)
  {
    hide IsCompressed, Out;
  }

  /** The last literals, and the size of the whole block. */
  method BlockSize(src: seq<byte>, dst: array<byte>, t: Target, op: nat, anchor: nat, ghost ss: Sequences, ghost was: seq<byte>) returns (r: nat)
    requires Roomy(t, dst, |src|) && t.dest <= op <= t.end && Untouched(dst[..], was, t.dest, t.end)
    requires Emitted(Out(dst[..], t.dest, op), src, ss, anchor)
    requires (ss != Start ==> anchor + LASTLITERALS <= |src|) && |src| <= MAX_INPUT_SIZE
    modifies dst
    ensures Untouched(dst[..], was, t.dest, t.end)
    ensures r == 0 ==> t.limited
    ensures anchor <= |src| && (r > 0 <==> !t.limited || op + LastRoom(|src| - anchor) <= t.end)
    ensures BlockHeld(dst[..], t, r, src)
    ensures r > 0 ==> anchor <= |src| && r == |EncodeSequences(ss)| + |EncodeLiterals(src[anchor..], 0)|
  {
    RoomyIs(t, dst, |src|);
    hide Emitted, Untouched, IsCompressed, Out, Roomy, BlockHeld, LastRoom;
    ghost var mid := dst[..];
    var ok, e := FinishBlock(src, dst, t, op, anchor, ss);
    UntouchedTwice(was, mid, dst[..], t.dest, t.end);
    if !ok {
      NoneHeld(dst[..], t, src);
      return 0;
    }
    r := e - t.dest;
    HeldUpTo(dst[..], t, r, e, src);
  }

  lemma HeldUpTo(s: seq<byte>, t: Target, r: nat, e: nat, src: seq<byte>)
    requires t.dest < e <= t.end <= |s| && e == t.dest + r && |src| <= MAX_INPUT_SIZE && IsCompressed(Out(s, t.dest, e), src)
    requires !t.limited ==> e <= t.dest + |src| + |src| / 255 + 16
    ensures BlockHeld(s, t, r, src)
  {
    hide IsCompressed, Out;
  }

  lemma EmittedAnchor(out: seq<byte>, src: seq<byte>, ss: Sequences, anchor: nat)
    requires Emitted(out, src, ss, anchor)
    ensures anchor <= |src|
  {
  }

  /** The literals before the match at ip. */
  method EncodeLiteralsAt(src: seq<byte>, dst: array<byte>, t: Target, token: nat, anchor: nat, ip: nat, ghost ss: Sequences)
    returns (ok: bool, op: nat)
    requires Roomy(t, dst, |src|) && t.dest <= token <= t.end && anchor <= ip && ip + MFLIMIT <= |src|
    requires Emitted(Out(dst[..], t.dest, token), src, ss, anchor)
    modifies dst
    ensures Untouched(dst[..], old(dst[..]), t.dest, t.end)
    ensures ok <==> !t.limited || token + 9 + (ip - anchor) + (ip - anchor) / 255 <= t.end
    ensures ok ==> token < op <= t.end && op == token + 1 + LengthSize(ip - anchor) + (ip - anchor) && (t.limited ==> op + 2 <= t.end)
    ensures ok ==> Emitted(Out(dst[..], t.dest, token), src, ss, anchor)
    ensures ok ==> Out(dst[..], token, op) == EncodeLiterals(src[anchor..ip], 0)
  {
    ghost var was := dst[..];
    hide Emitted, EncodeLiterals, LengthBytes;
    UsedSoFar(was, t.dest, token, src, ss, anchor);
    RoomForLiterals(token - t.dest, anchor, ip, |src|);
    ok, op := EncodeLiteralRun(src, dst, token, anchor, ip, t.limited, t.end, t.end);
    OutputGrows(dst[..], was, t.dest, token, t.end, token, []);
    UntouchedWider(dst[..], was, token, t.end, t.dest, t.end);
  }

  // ------------------------------------------------------- the interface

  function ClampAcceleration(acceleration: int): (r: nat)
    ensures 1 <= r <= ACCELERATION_MAX
  {
    if acceleration < 1 then ACCELERATION_DEFAULT
    else if acceleration > ACCELERATION_MAX then ACCELERATION_MAX
    else acceleration
  }

  /** LZ4_compress_generic: refuses inputs that are too large and writes the empty block itself. */
  method CompressGeneric(ctx: Stream, src: seq<byte>, dst: array<byte>, t: Target, wanted: TableType, dictSmall: bool,
                         acceleration: nat, hash: seq<byte> -> nat)
    returns (r: nat)
    requires ctx.hashTable as object != dst as object && acceleration >= 1
    requires |src| <= MAX_INPUT_SIZE ==> Roomy(t, dst, |src|)
    requires t.dest <= t.end <= dst.Length
    requires ctx.Prepared(|src|, wanted) && dictSmall == ctx.DictSmall(wanted)
    modifies ctx, ctx.hashTable, dst
    ensures ctx.Valid()
    ensures Untouched(dst[..], old(dst[..]), t.dest, t.end)
    ensures r == 0 ==> t.limited || |src| > MAX_INPUT_SIZE || (wanted == ByU16 && |src| >= LZ4_64KLIMIT)
    ensures r > 0 ==> BlockHeld(dst[..], t, r, src)
    ensures r > 0 && AllSame(src) ==> r == RunSize(|src|)
    ensures AllSame(src) && |src| <= MAX_INPUT_SIZE && (wanted == ByU16 ==> |src| < LZ4_64KLIMIT) ==> (r > 0 <==> RunSizeFits(src, t, t.dest))
  {
    UntouchedSame(dst[..], t.dest, t.end);
    ctx.PreparedValid(|src|, wanted);
    hide Untouched, IsCompressed, Out, Roomy, Stream.Prepared, Stream.Valid, Stream.DictSmall, BlockHeld;
    if |src| > MAX_INPUT_SIZE {
      return 0;
    }
    if |src| == 0 {
      if t.limited && t.end <= t.dest {
        return 0;
      }
      assert src == [];
      r := WriteEmptyBlock(dst, t);
      return;
    }
    r := ctx.CompressValidated(src, dst, t, wanted, dictSmall, acceleration, hash);
  }

  method WriteEmptyBlock(dst: array<byte>, t: Target) returns (r: nat)
    requires t.dest < t.end <= dst.Length
    modifies dst
    ensures Untouched(dst[..], old(dst[..]), t.dest, t.end)
    ensures r == 1 && BlockHeld(dst[..], t, r, [])
  {
    ghost var was := dst[..];
    UntouchedSame(was, t.dest, t.end);
    PutByte(dst, t.dest, 0, t.dest, t.end, was);
    EmptyIsBlock(dst[t.dest..t.dest + 1]);
    r := 1;
    hide IsCompressed, Out;
    HeldUpTo(dst[..], t, r, t.dest + 1, []);
  }

  lemma EmptyIsBlock(block: seq<byte>)
    requires block == [0]
    ensures IsCompressed(block, [])
  {
    assert ItemAt([0], 0) == Final(1, 0);
  }

  /** What a size that is returned means for the caller. */
  lemma HeldIs(s: seq<byte>, t: Target, r: nat, src: seq<byte>)
    requires BlockHeld(s, t, r, src) && r > 0
    ensures t.dest + r <= t.end && IsCompressed(Out(s, t.dest, t.dest + r), src)
    ensures |src| <= MAX_INPUT_SIZE && (!t.limited ==> r <= CompressBound(|src|))
  {
    hide IsCompressed, Out;
  }

  /** LZ4_compress_fast_extState on a 64-bit machine: a fresh state every time. */
  method CompressFastExtState(ctx: Stream, src: seq<byte>, dst: array<byte>, dest: nat, maxOutputSize: nat, acceleration: int,
                              hash: seq<byte> -> nat)
    returns (r: nat)
    requires ctx.hashTable.Length == HASHTABLE_ENTRIES && ctx.hashTable as object != dst as object
    requires dest + maxOutputSize <= dst.Length
    modifies ctx, ctx.hashTable, dst
    ensures ctx.Valid()
    ensures Untouched(dst[..], old(dst[..]), dest, dest + maxOutputSize)
    ensures r <= maxOutputSize
    ensures r > 0 ==> IsCompressed(Out(dst[..], dest, dest + r), src)
    ensures 0 < CompressBound(|src|) <= maxOutputSize ==> 0 < r <= CompressBound(|src|)
    ensures r > 0 && AllSame(src) ==> r == RunSize(|src|)
    ensures AllSame(src) && |src| <= MAX_INPUT_SIZE ==> (r > 0 <==> RunSize(|src|) <= maxOutputSize)
  {
    hide Untouched, IsCompressed, Out, BlockHeld;
    ctx.Init();
    var t := Target(dest, dest + maxOutputSize, maxOutputSize < CompressBound(|src|));
    var wanted := if |src| < LZ4_64KLIMIT then ByU16 else ByU32;
    r := CompressGeneric(ctx, src, dst, t, wanted, false, ClampAcceleration(acceleration), hash);
    if r > 0 { HeldIs(dst[..], t, r, src); }
  }

  /** LZ4_compress_fast_extState_fastReset on a 64-bit machine: whatever earlier calls left in the
      state, a non-zero result decodes to this call's input. */
  method CompressFastReset(ctx: Stream, src: seq<byte>, dst: array<byte>, dest: nat, dstCapacity: nat, acceleration: int,
                           hash: seq<byte> -> nat)
    returns (r: nat)
    requires ctx.Valid() && ctx.hashTable as object != dst as object
    requires dest + dstCapacity <= dst.Length
    modifies ctx, ctx.hashTable, dst
    ensures ctx.Valid()
    ensures Untouched(dst[..], old(dst[..]), dest, dest + dstCapacity)
    ensures r <= dstCapacity
    ensures r > 0 ==> IsCompressed(Out(dst[..], dest, dest + r), src)
    ensures 0 < CompressBound(|src|) <= dstCapacity ==> 0 < r <= CompressBound(|src|)
    ensures r > 0 && AllSame(src) ==> r == RunSize(|src|)
    ensures AllSame(src) && |src| <= MAX_INPUT_SIZE ==> (r > 0 <==> RunSize(|src|) <= dstCapacity)
  {
    hide Untouched, IsCompressed, Out, BlockHeld;
    var t := Target(dest, dest + dstCapacity, dstCapacity < CompressBound(|src|));
    var wanted := if |src| < LZ4_64KLIMIT then ByU16 else ByU32;
    ctx.PrepareTable(|src|, wanted);
    var dictSmall := wanted == ByU16 && ctx.currentOffset != 0;
    r := CompressGeneric(ctx, src, dst, t, wanted, dictSmall, ClampAcceleration(acceleration), hash);
    if r > 0 { HeldIs(dst[..], t, r, src); }
  }

  /** LZ4_compress_fast and, with acceleration 1, LZ4_compress_default. */
  method CompressFast(src: seq<byte>, dst: array<byte>, dest: nat, maxOutputSize: nat, acceleration: int, hash: seq<byte> -> nat)
    returns (r: nat)
    requires dest + maxOutputSize <= dst.Length
    modifies dst
    ensures Untouched(dst[..], old(dst[..]), dest, dest + maxOutputSize)
    ensures r <= maxOutputSize
    ensures r > 0 ==> IsCompressed(Out(dst[..], dest, dest + r), src)
    ensures 0 < CompressBound(|src|) <= maxOutputSize ==> 0 < r <= CompressBound(|src|)
    ensures r > 0 && AllSame(src) ==> r == RunSize(|src|)
    ensures AllSame(src) && |src| <= MAX_INPUT_SIZE ==> (r > 0 <==> RunSize(|src|) <= maxOutputSize)
  {
    var ctx := new Stream();
    r := CompressFastExtState(ctx, src, dst, dest, maxOutputSize, acceleration, hash);
  }
}
