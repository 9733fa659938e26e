/** The match finder of the LZ4 HC compressor for one contiguous input: hash chains over 16-bit
    position deltas, chain swapping and the shortcut through runs of one byte. The hash function
    is arbitrary. */
module Lz4HcMatch {
  import opened Lz4Block
  import opened Lz4Copy
  import Lz4Compress

  const HC_HASH_SIZE := 32768
  const HC_CHAIN_SIZE := 65536

  /** `len` bytes from `start` on repeat the ones `offset` before. */
  datatype Match = Match(start: nat, len: nat, offset: nat)

  function End(m: Match): nat { m.start + m.len }

  /** A match that an encoder may use as far as offset and bytes are concerned. */
  ghost predicate Good(src: seq<byte>, m: Match, limit: nat) {
    && 1 <= m.offset <= DISTANCE_MAX && m.offset <= m.start
    && End(m) <= limit <= |src|
    && Periodic(src, m.start, End(m), m.offset)
  }

  /** What the finder promises of a longer match: it starts between low and ip, and covers at
      least the four bytes at ip. */
  ghost predicate Found(src: seq<byte>, m: Match, low: nat, ip: nat, limit: nat) {
    Good(src, m, limit) && low <= m.start <= ip && ip + MINMATCH <= End(m)
  }

  /** The best match so far: as promised and longer than asked for, or none yet. */
  ghost predicate Improves(src: seq<byte>, m: Match, low: nat, ip: nat, longest: nat) {
    && (low == ip ==> m.start == ip) && low + m.len < |src| && longest <= m.len && LASTLITERALS <= |src|
    && (m.len == longest || Found(src, m, low, ip, |src| - LASTLITERALS))
  }

  /** The last n bytes of a match form a match. */
  function Shift(m: Match, k: nat): Match
    requires k <= m.len
  {
    Match(m.start + k, m.len - k, m.offset)
  }

  lemma ShiftGood(src: seq<byte>, m: Match, k: nat, limit: nat)
    requires Good(src, m, limit) && k <= m.len
    ensures Good(src, Shift(m, k), limit) && End(Shift(m, k)) == End(m)
  {
    var lo, hi, p := m.start + k, End(m), m.offset;
    forall i | lo <= i < hi ensures SameAt(src, i, p) {
    }
  }

  /** So do the first n bytes. */
  lemma TrimGood(src: seq<byte>, m: Match, n: nat, limit: nat)
    requires Good(src, m, limit) && n <= m.len
    ensures Good(src, Match(m.start, n, m.offset), limit)
  {
    var lo, hi, p := m.start, m.start + n, m.offset;
    forall i | lo <= i < hi ensures SameAt(src, i, p) {
    }
  }

  /** LZ4HC_countBack: how far the match reaches back, to low at most. */
  method CountBack(src: seq<byte>, ip: nat, offset: nat, low: nat) returns (back: nat)
    requires 1 <= offset <= ip <= |src| && low <= ip
    ensures back <= ip - low && back <= ip - offset
    ensures Periodic(src, ip - back, ip, offset)
    ensures back < ip - low && back < ip - offset ==> src[ip - back - 1] != src[ip - offset - back - 1]
  {
    back := 0;
    var most := if ip - low < ip - offset then ip - low else ip - offset;
    while back < most && src[ip - back - 1] == src[ip - offset - back - 1]
      invariant back <= most
      invariant Periodic(src, ip - back, ip, offset)
    {
      var i := ip - back - 1;
      assert SameAt(src, i, offset);
      back := back + 1;
    }
  }

  lemma PeriodicUnion(src: seq<byte>, a: nat, b: nat, c: nat, p: nat)
    requires Periodic(src, a, b, p) && Periodic(src, b, c, p)
    ensures Periodic(src, a, c, p)
  {
  }

  // ------------------------------------------------------- runs of one byte

  /** [lo, hi) holds the byte c only. */
  ghost predicate Run(src: seq<byte>, lo: nat, hi: nat, c: byte) {
    lo <= hi <= |src| && forall i | lo <= i < hi :: src[i] == c
  }

  /** LZ4_NbCommonBytes of the exclusive-or of eight bytes and the pattern. */
  method CommonWithPattern(src: seq<byte>, p: nat, c: byte) returns (n: nat)
    requires p + 8 <= |src|
    ensures n <= 8 && Run(src, p, p + n, c)
    ensures n < 8 ==> src[p + n] != c
  {
    n := 0;
    while n < 8 && src[p + n] == c
      invariant n <= 8 && Run(src, p, p + n, c)
    {
      n := n + 1;
    }
  }

  /** LZ4HC_countPattern for a pattern of four equal bytes: eight bytes at a time, then single ones. */
  method CountPattern(src: seq<byte>, ip: nat, iEnd: nat, c: byte) returns (n: nat)
    requires ip <= iEnd <= |src|
    ensures ip + n <= iEnd && Run(src, ip, ip + n, c)
    ensures ip + n < iEnd ==> src[ip + n] != c
  {
    n := 0;
    while ip + n + 7 < iEnd
      invariant ip + n <= iEnd && Run(src, ip, ip + n, c)
      decreases iEnd - n
    {
      var more := CommonWithPattern(src, ip + n, c);
      n := n + more;
      if more < 8 { return; }
    }
    while ip + n < iEnd && src[ip + n] == c
      invariant ip + n <= iEnd && Run(src, ip, ip + n, c)
    {
      n := n + 1;
    }
  }

  /** LZ4HC_reverseCountPattern for a pattern of four equal bytes: four bytes at a time, then single ones. */
  method ReverseCountPattern(src: seq<byte>, ip: nat, low: nat, c: byte) returns (n: nat)
    requires low <= ip <= |src|
    ensures n <= ip - low && Run(src, ip - n, ip, c)
    ensures n < ip - low ==> src[ip - n - 1] != c
  {
    n := 0;
    while ip - n >= low + 4
      invariant n <= ip - low && Run(src, ip - n, ip, c)
    {
      var p := ip - n - 4;
      if !(src[p] == c && src[p + 1] == c && src[p + 2] == c && src[p + 3] == c) {
        break;
      }
      n := n + 4;
    }
    while ip - n > low && src[ip - n - 1] == c
      invariant n <= ip - low && Run(src, ip - n, ip, c)
    {
      n := n + 1;
    }
  }

  /** Two runs of the same byte match each other. */
  lemma RunsMatch(src: seq<byte>, a: nat, b: nat, n: nat, c: byte)
    requires a < b && Run(src, a, a + n, c) && Run(src, b, b + n, c)
    ensures Periodic(src, b, b + n, b - a)
  {
    var p := b - a;
    forall i | b <= i < b + n ensures SameAt(src, i, p) {
      var j := i - p;
      assert a <= j < a + n;
    }
  }

  datatype Repeat = Untested | NotRepeated | Confirmed

  // -------------------------------------------------------------- the tables

  class Tables {
    const hashTable: array<nat>
    const chainTable: array<nat>
    var nextToUpdate: nat
    var lowLimit: nat
    var size: nat
    var dirty: bool

    ghost predicate Shaped()
      reads this, hashTable, chainTable
    {
      && hashTable.Length == HC_HASH_SIZE && chainTable.Length == HC_CHAIN_SIZE && hashTable != chainTable
      && (forall k | 0 <= k < HC_CHAIN_SIZE :: chainTable[k] <= 65535)
    }

    /** Every position below `inserted` may be in the tables, none at or above it. */
    ghost predicate Ready(inserted: nat)
      reads this, hashTable, chainTable
    {
      && Shaped() && lowLimit >= 65536
      && nextToUpdate == lowLimit + inserted
      && (forall k | 0 <= k < HC_HASH_SIZE :: hashTable[k] < nextToUpdate)
    }

    /** The tables hold positions of the first n bytes only, or older ones. */
    ghost predicate Filled(n: nat)
      reads this, hashTable, chainTable
    {
      Shaped() && lowLimit >= 65536 && forall k | 0 <= k < HC_HASH_SIZE :: hashTable[k] < lowLimit + n
    }

    function HashAt(hash: seq<byte> -> nat, src: seq<byte>, p: nat): (h: nat)
      requires p + 4 <= |src|
      ensures h < HC_HASH_SIZE
    {
      hash(src[p..p + 4]) % HC_HASH_SIZE
    }

    /** LZ4HC_Insert: registers the positions up to ip. */
    method Insert(src: seq<byte>, ip: nat, hash: seq<byte> -> nat, ghost inserted: nat)
      requires Ready(inserted) && inserted <= ip && ip + 4 <= |src|
      modifies this`nextToUpdate, hashTable, chainTable
      ensures Ready(ip)
      ensures inserted < ip ==> hashTable[HashAt(hash, src, ip - 1)] == lowLimit + ip - 1
    {
      var target := ip + lowLimit;
      var idx := nextToUpdate;
      ghost var last: nat := 0;
      while idx < target
        invariant lowLimit + inserted == nextToUpdate <= idx <= target && Shaped() && last < HC_HASH_SIZE
        invariant forall k | 0 <= k < HC_HASH_SIZE :: hashTable[k] < target && hashTable[k] < (if idx > nextToUpdate then idx else nextToUpdate)
        invariant idx > nextToUpdate == lowLimit + inserted ==> hashTable[last] == idx - 1 && last == HashAt(hash, src, idx - 1 - lowLimit)
      {
        var h := HashAt(hash, src, idx - lowLimit);
        var delta := idx - hashTable[h];
        if delta > DISTANCE_MAX { delta := DISTANCE_MAX; }
        chainTable[idx % 65536] := delta;
        hashTable[h] := idx;
        last := h;
        idx := idx + 1;
      }
      nextToUpdate := target;
    }

    /** The step along a chain. */
    function Delta(index: nat): (d: nat)
      requires chainTable.Length == HC_CHAIN_SIZE
      reads chainTable
    {
      chainTable[index % 65536]
    }

    /** Tests one earlier position: reads back and forth from it. */
    method TryCandidate(src: seq<byte>, ip: nat, offset: nat, low: nat, longest: Match, ghost least: nat) returns (best: Match, length: nat)
      requires 1 <= offset <= ip && offset <= DISTANCE_MAX && ip + MFLIMIT <= |src|
      requires low <= ip && ip - low < least && Improves(src, longest, low, ip, least)
      ensures Improves(src, best, low, ip, least)
      ensures best == longest || (longest.len < best.len && length == best.len && best.offset == offset)
      ensures Lz4Compress.AllSame(src) && low == ip ==> best.len + ip + LASTLITERALS >= |src|
      ensures length == 0 || length >= MINMATCH
    {
      var limit := |src| - LASTLITERALS;
      best, length := longest, 0;
      var matchPtr := ip - offset;
      var back0 := ip - low;
      var a := low + longest.len - 1;
      var b := matchPtr + longest.len - 1 - back0;
      if Lz4Compress.SameWord(src, b, a, 2) {
        Lz4Compress.SameWordPeriodic(src, matchPtr, ip, 4, offset);
        if Lz4Compress.SameWord(src, matchPtr, ip, 4) {
          var back := 0;
          if back0 != 0 { back := CountBack(src, ip, offset, low); }
          var e := Lz4Compress.Count(src, ip + MINMATCH, offset, limit);
          PeriodicUnion(src, ip, ip + MINMATCH, e, offset);
          var start := ip - back;
          PeriodicUnion(src, start, ip, e, offset);
          length := e - start;
          if length > longest.len {
            best := Match(start, length, offset);
          }
        }
      }
    }

    /** The better chain: the position within the match whose next occurrence is farthest back. */
    method SwapChain(matchIndex: nat, length: nat) returns (distance: nat, chainPos: nat)
      requires Shaped() && length >= MINMATCH
      ensures distance >= 1 && (distance > 1 ==> chainPos < length)
    {
      distance, chainPos := 1, 0;
      var end := length - MINMATCH + 1;
      var step, accel, pos := 1, 16, 0;
      while pos < end
        invariant distance >= 1 && (distance > 1 ==> chainPos < length)
        invariant step >= 1 && accel >= 16
        decreases end - pos
      {
        var candidate := Delta(matchIndex + pos);
        step := accel / 16;
        accel := accel + 1;
        if candidate > distance {
          distance, chainPos, accel := candidate, pos, 16;
        }
        pos := pos + step;
      }
    }

    /** The pattern of four bytes at ip is one byte repeated; how far it goes on. */
    method TestRepeat(src: seq<byte>, ip: nat, limit: nat) returns (repeat: Repeat, length: nat)
      requires ip + 4 <= limit <= |src|
      ensures repeat != Untested
      ensures repeat == Confirmed ==> 4 <= length <= limit - ip && Run(src, ip, ip + length, src[ip])
    {
      repeat, length := NotRepeated, 0;
      if src[ip] == src[ip + 2] && src[ip + 1] == src[ip + 3] && src[ip] == src[ip + 3] {
        var n := CountPattern(src, ip + 4, limit, src[ip]);
        repeat, length := Confirmed, n + 4;
        RunFront(src, ip, n);
      }
    }

    lemma RunFront(src: seq<byte>, ip: nat, n: nat)
      requires ip + 4 <= |src| && src[ip] == src[ip + 1] == src[ip + 2] == src[ip + 3]
      requires Run(src, ip + 4, ip + 4 + n, src[ip])
      ensures Run(src, ip, ip + (n + 4), src[ip])
    {
    }

    /** The segment of the byte c around a candidate: `back` bytes before it, `forward` from it on. */
    method Segment(src: seq<byte>, at: nat, limit: nat, c: byte) returns (back: nat, forward: nat)
      requires at + 4 <= limit <= |src| && Run(src, at, at + 4, c)
      ensures back <= at && 4 <= forward <= limit - at && Run(src, at - back, at + forward, c)
    {
      var n := CountPattern(src, at + 4, limit, c);
      forward := n + 4;
      back := ReverseCountPattern(src, at, 0, c);
    }

    /** One step of the pattern analysis. `taken` says that the chain is not followed this time,
        `stop` that the search is over. */
    method PatternStep(src: seq<byte>, ip: nat, limit: nat, matchIndex0: nat, lowest: nat, low: nat, longest: Match, patternLength: nat,
                       ghost least: nat)
      returns (taken: bool, stop: bool, matchIndex: nat, best: Match)
      requires Shaped() && lowLimit <= lowest && ip + MFLIMIT <= |src| && limit == |src| - LASTLITERALS
      requires lowest <= matchIndex0 < lowLimit + ip && low <= ip && Improves(src, longest, low, ip, least)
      requires 4 <= patternLength <= limit - ip && Run(src, ip, ip + patternLength, src[ip])
      ensures matchIndex < lowLimit + ip && (!taken ==> matchIndex == matchIndex0 && !stop)
      ensures Improves(src, best, low, ip, least) && (best == longest || longest.len < best.len)
    {
      taken, stop, matchIndex, best := false, false, matchIndex0, longest;
      if matchIndex0 - 1 < lowest { return; }
      var candidate := matchIndex0 - 1;
      var at, c := candidate - lowLimit, src[ip];
      if !(src[at] == c && src[at + 1] == c && src[at + 2] == c && src[at + 3] == c) { return; }
      taken := true;
      assert Run(src, at, at + 4, c);
      var back, forward := Segment(src, at, limit, c);
      if back > candidate - lowest { back := candidate - lowest; }
      var segment := back + forward;
      if segment >= patternLength && forward <= patternLength {
        matchIndex := candidate + forward - patternLength;
      } else {
        matchIndex := candidate - back;
        if low == ip {
          var maxML := if segment < patternLength then segment else patternLength;
          if longest.len < maxML {
            var from := at - back;
            if ip - from > DISTANCE_MAX { stop := true; return; }
            RunsMatch(src, from, ip, maxML, c);
            best := Match(ip, maxML, ip - from);
          }
          var dist := Delta(matchIndex);
          if dist > matchIndex { stop := true; return; }
          matchIndex := matchIndex - dist;
        }
      }
    }

    ghost predicate RepeatOk(src: seq<byte>, ip: nat, repeat: Repeat, length: nat) {
      repeat == Confirmed ==> ip + length + LASTLITERALS <= |src| && 4 <= length && Run(src, ip, ip + length, src[ip])
    }

    method TryPattern(src: seq<byte>, ip: nat, matchIndex0: nat, lowest: nat, low: nat, longest: Match, repeat0: Repeat, patternLength0: nat,
                      ghost least: nat)
      returns (taken: bool, stop: bool, matchIndex: nat, best: Match, repeat: Repeat, patternLength: nat)
      requires Shaped() && lowLimit <= lowest && ip + MFLIMIT <= |src| && RepeatOk(src, ip, repeat0, patternLength0)
      requires lowest <= matchIndex0 < lowLimit + ip && low <= ip && Improves(src, longest, low, ip, least)
      ensures matchIndex < lowLimit + ip && (!taken ==> matchIndex == matchIndex0 && !stop)
      ensures Improves(src, best, low, ip, least) && RepeatOk(src, ip, repeat, patternLength) && (best == longest || longest.len < best.len)
    {
      hide Improves;
      taken, stop, matchIndex, best, repeat, patternLength := false, false, matchIndex0, longest, repeat0, patternLength0;
      if repeat == Untested {
        repeat, patternLength := TestRepeat(src, ip, |src| - LASTLITERALS);
      }
      if repeat == Confirmed {
        taken, stop, matchIndex, best := PatternStep(src, ip, |src| - LASTLITERALS, matchIndex, lowest, low, best, patternLength, least);
      }
    }

    lemma RepeatUntested(src: seq<byte>, ip: nat)
      ensures RepeatOk(src, ip, Untested, 0)
    {
    }

    /** One candidate: the match there, and where to look next. */
    method Candidate(src: seq<byte>, ip: nat, matchIndex0: nat, lowest: nat, low: nat, best0: Match, ghost longest: nat, chainPos0: nat, repeat0: Repeat,
                     patternLength0: nat, patternAnalysis: bool, chainSwap: bool, favorDecSpeed: bool)
      returns (stop: bool, matchIndex: nat, best: Match, chainPos: nat, repeat: Repeat, patternLength: nat)
      requires Shaped() && 65536 <= lowLimit <= lowest <= matchIndex0 < lowLimit + ip <= matchIndex0 + DISTANCE_MAX && ip + MFLIMIT <= |src| && low <= ip && ip - low < longest
      requires Improves(src, best0, low, ip, longest) && RepeatOk(src, ip, repeat0, patternLength0)
      ensures Improves(src, best, low, ip, longest) && RepeatOk(src, ip, repeat, patternLength) && matchIndex < lowLimit + ip
      ensures RunTaken(src, ip, low, best0, best, lowLimit + ip - matchIndex0, favorDecSpeed)
    {
      hide Improves, RepeatOk, Lz4Compress.AllSame;
      stop, matchIndex, best, chainPos, repeat, patternLength := false, matchIndex0, best0, chainPos0, repeat0, patternLength0;
      var ipIndex := lowLimit + ip;
      var length := 0;
      if !(favorDecSpeed && ipIndex - matchIndex < 8) {
        best, length := TryCandidate(src, ip, ipIndex - matchIndex, low, best, longest);
      }
      ghost var tried := best;
      AtLeast(src, best0, low, ip, longest);
      RunMost(src, tried, low, ip, longest);
      if chainSwap && length == best.len && matchIndex + best.len <= ipIndex {
        AtLeast(src, best, low, ip, longest);
        var distance, pos := SwapChain(matchIndex, best.len);
        if distance > 1 {
          chainPos := pos;
          if distance > matchIndex {
            stop := true;
          } else {
            matchIndex := matchIndex - distance;
          }
          return;
        }
      }
      if patternAnalysis && Delta(matchIndex) == 1 && chainPos == 0 {
        var taken;
        taken, stop, matchIndex, best, repeat, patternLength := TryPattern(src, ip, matchIndex, lowest, low, best, repeat, patternLength, longest);
        RunMost(src, best, low, ip, longest);
        if stop || taken { return; }
      }
      matchIndex := matchIndex - Delta(matchIndex + chainPos);
    }

    /** LZ4HC_InsertAndGetWiderMatch: the longest match among the candidates tried that beats
        `longest`, or a match of that length and start `ip` when there is none. */
    method GetWiderMatch(src: seq<byte>, ip: nat, low: nat, longest: nat, hash: seq<byte> -> nat, attempts: nat,
                         patternAnalysis: bool, chainSwap: bool, favorDecSpeed: bool, ghost inserted: nat)
      returns (best: Match)
      requires Ready(inserted) && inserted <= ip && ip + MFLIMIT <= |src|
      requires low <= ip && ip - low < longest && 1 <= longest && low + longest < |src|
      modifies this`nextToUpdate, hashTable, chainTable
      ensures Ready(ip)
      ensures best.len >= longest && (best.len > longest ==> Found(src, best, low, ip, |src| - LASTLITERALS))
      ensures low == ip ==> best.start == ip
      ensures ip == 0 ==> best.len == longest
      ensures FirstOfRun(src, ip, low, longest, inserted) && attempts > 0 && !favorDecSpeed ==> best == RunMatch(src)
    {
      ghost var run := FirstOfRun(src, ip, low, longest, inserted) && attempts > 0 && !favorDecSpeed;
      if run { Lz4Compress.RunWords(src); }
      assert run ==> ip == 1 && low == 1 && inserted == 0 && longest < |src| - 6 && HashAt(hash, src, 0) == HashAt(hash, src, 1);
      hide Improves, RepeatOk, Lz4Compress.AllSame, HashAt, Shaped;
      RepeatUntested(src, ip);
      Insert(src, ip, hash, inserted);
      var ipIndex := lowLimit + ip;
      var lowest := if lowLimit + (DISTANCE_MAX + 1) > ipIndex then lowLimit else ipIndex - DISTANCE_MAX;
      best := Match(ip, longest, 0);
      NoneYet(src, ip, low, longest);
      var chainPos, repeat, patternLength, stop := 0, Untested, 0, false;
      var nbAttempts := attempts;
      var matchIndex := hashTable[HashAt(hash, src, ip)];
      while !stop && matchIndex >= lowest && nbAttempts > 0
        invariant Ready(ip) && matchIndex < ipIndex
        invariant Improves(src, best, low, ip, longest)
        invariant RepeatOk(src, ip, repeat, patternLength)
        invariant ip == 0 ==> best.len == longest
        invariant run ==> best == RunMatch(src) || (!stop && matchIndex == lowLimit && nbAttempts == attempts && best == Match(ip, longest, 0))
        decreases nbAttempts
      {
        nbAttempts := nbAttempts - 1;
        ghost var before := best;
        stop, matchIndex, best, chainPos, repeat, patternLength :=
          Candidate(src, ip, matchIndex, lowest, low, best, longest, chainPos, repeat, patternLength, patternAnalysis, chainSwap, favorDecSpeed);
        RunMost(src, best, low, ip, longest);
      }
      AtLeast(src, best, low, ip, longest);
    }
  }

  /** In a run every candidate gives the longest match there can be, and none replaces it. */
  ghost predicate RunTaken(src: seq<byte>, ip: nat, low: nat, best0: Match, best: Match, offset: nat, favorDecSpeed: bool) {
    Lz4Compress.AllSame(src) && low == ip && !favorDecSpeed ==>
      && best.len + ip + LASTLITERALS >= |src|
      && (best == best0 || (best0.len + ip + LASTLITERALS < |src| && best.offset == offset))
  }

  /** The search at the second byte of a run, when only the first is registered. */
  ghost predicate FirstOfRun(src: seq<byte>, ip: nat, low: nat, longest: nat, inserted: nat) {
    Lz4Compress.AllSame(src) && ip == low == 1 && inserted == 0 && longest < |src| - 6
  }

  function RunMatch(src: seq<byte>): Match
    requires |src| >= 6
  {
    Match(1, |src| - 6, 1)
  }

  /** There is no longer one. */
  lemma RunMost(src: seq<byte>, m: Match, low: nat, ip: nat, longest: nat)
    requires Improves(src, m, low, ip, longest)
    ensures low == ip ==> m.start == ip && (m.len + ip + LASTLITERALS <= |src| || m.len == longest)
  {
  }

  lemma NoneYet(src: seq<byte>, ip: nat, low: nat, longest: nat)
    requires low + longest < |src| && LASTLITERALS <= |src|
    ensures Improves(src, Match(ip, longest, 0), low, ip, longest)
  {
  }

  lemma AtLeast(src: seq<byte>, m: Match, low: nat, ip: nat, longest: nat)
    requires Improves(src, m, low, ip, longest)
    ensures m.len >= longest && (low == ip ==> m.start == ip)
    ensures m.len == longest || Found(src, m, low, ip, |src| - LASTLITERALS)
  {
  }
}
