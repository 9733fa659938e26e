/** The frame decoder's dictionary: where the last 64 KB of output are, as they move between the
    destination buffers of the caller and the decoder's own buffer. Memory is flat; addresses are
    indexes into it and 0 is NULL. */
module FrameDict {
  import opened Lz4Block
  import opened Slices
  import opened Lz4Copy
  import opened FrameFormat

  /** memcpy of n bytes from address s to address d. */
  function Copied(m: seq<byte>, d: nat, s: nat, n: nat): (r: seq<byte>)
    requires d + n <= |m| && s + n <= |m|
    ensures |r| == |m|
  {
    m[..d] + m[s..s + n] + m[d + n..]
  }

  lemma CopiedParts(m: seq<byte>, d: nat, s: nat, n: nat, e: nat, se: nat)
    requires e == d + n <= |m| && se == s + n <= |m|
    ensures var r := Copied(m, d, s, n); Bytes(r, d, e) == Bytes(m, s, se) && Untouched(r, m, d, e)
  {
  }

  /** A piece of memory that was not touched. */
  lemma BytesKept(now: seq<byte>, was: seq<byte>, lo: nat, hi: nat, a: nat, b: nat)
    requires Untouched(now, was, lo, hi) && a <= b <= |was| && (b <= lo || hi <= a)
    ensures Bytes(now, a, b) == Bytes(was, a, b)
  {
    if b <= lo {
      assert now[a..b] == now[..lo][a..b] == was[..lo][a..b];
    } else {
      assert now[hi..] == now[hi..|now|] && was[hi..] == was[hi..|was|];
      SliceOfSlice(now, hi, |now|, a - hi, b - hi, a, b);
      SliceOfSlice(was, hi, |was|, a - hi, b - hi, a, b);
    }
  }

  function Bytes(m: seq<byte>, a: nat, b: nat): (r: seq<byte>)
    requires a <= b <= |m|
    ensures |r| == b - a
  {
    m[a..b]
  }

  lemma NoBytes(m: seq<byte>, a: nat, n: seq<byte>, b: nat)
    requires a <= |m| && b <= |n|
    ensures Bytes(m, a, a) == Bytes(n, b, b)
  {
  }

  lemma BytesJoin(m: seq<byte>, a: nat, b: nat, c: nat)
    requires a <= b <= c <= |m|
    ensures Bytes(m, a, b) + Bytes(m, b, c) == Bytes(m, a, c)
  {
  }

  /** Two byte strings have the same last k bytes. */
  ghost predicate SameEnd(a: seq<byte>, h: seq<byte>, k: nat) {
    Last(a, k) == Last(h, k)
  }

  lemma SameEndAppend(a: seq<byte>, h: seq<byte>, k: nat, d: seq<byte>, k': nat)
    requires SameEnd(a, h, k) && k' <= k + |d|
    ensures SameEnd(a + d, h + d, k')
  {
    LastAppend(a, h, k, d);
    LastFewer(a + d, h + d, k + |d|, k');
  }

  lemma SameEndFewer(a: seq<byte>, h: seq<byte>, k: nat, k': nat)
    requires SameEnd(a, h, k) && k' <= k
    ensures SameEnd(a, h, k')
  {
    LastFewer(a, h, k, k');
  }

  /** The last n bytes of h, where n is at least k or all there is, end like h. */
  lemma SameEndLast(h: seq<byte>, n: nat, k: nat)
    requires n <= |h| && (k <= n || n == |h|)
    ensures SameEnd(h[|h| - n..], h, k)
  {
    if k <= n { LastOfEnd(h, n, k); }
  }

  /** Keeping only the last n bytes of what ends like h. */
  lemma SameEndCut(a: seq<byte>, h: seq<byte>, n: nat, k: nat)
    requires SameEnd(a, h, k) && n <= |a| && (k <= n || n == |a|)
    ensures SameEnd(a[|a| - n..], h, k)
  {
    SameEndLast(a, n, k);
  }

  /** How much of the history must be right while a block of `size` bytes is flushed, `start` of
      them already: so much that it is the whole window when all are. */
  function Needed(size: nat, start: nat): (k: nat)
    ensures k <= WINDOW && (start >= size ==> k == WINDOW)
  {
    var k := (if size > WINDOW then 0 else WINDOW - size) + start;
    if k > WINDOW then WINDOW else k
  }

  lemma NeededGrows(size: nat, start: nat, m: nat)
    ensures Needed(size, start) <= Needed(size, start + m) <= Needed(size, start) + m
  {
  }

  /** The room left in front of a block is that of the whole history, or a window at least. */
  ghost predicate RoomFor(n: nat, h: seq<byte>) {
    if n < WINDOW then n == |h| else |h| >= WINDOW
  }

  // ---------------------------------------------------------------- the moves

  /** The copy in front of tmpOut: of the dictionary before the block, what the window still needs. */
  lemma InFront(a: seq<byte>, h0: seq<byte>, block: seq<byte>, size: nat, preserve: nat, copy: nat, front: seq<byte>, d: seq<byte>)
    requires SameEnd(a, h0 + block, Needed(size, |block|)) && |block| + |d| <= size
    requires RoomFor(preserve, h0)
    requires copy == (var c := if size > WINDOW then 0 else WINDOW - size; if c > preserve then preserve else c)
    requires |front| == preserve && (copy > 0 ==> |a| >= copy + |block|)
    requires copy > 0 ==> EndsBefore(front, a, |block|, copy)
    ensures SameEnd(front + (block + d), h0 + (block + d), Needed(size, |block| + |d|))
  {
    var bd := block + d;
    var k := Needed(size, |bd|);
    if copy > 0 {
      SameEndFewer(a, h0 + block, Needed(size, |block|), copy + |block|);
      Suffixes(a, h0, block, copy);
      hide SameEnd;
    }
    FrontEnds(front, h0, bd, k, preserve, copy);
  }

  /** In front there is all of the history, or as much of its end as is needed. */
  lemma FrontEnds(front: seq<byte>, h0: seq<byte>, bd: seq<byte>, k: nat, preserve: nat, copy: nat)
    requires |front| == preserve && RoomFor(preserve, h0) && copy <= preserve && copy <= |h0|
    requires copy > 0 ==> front[preserve - copy..] == h0[|h0| - copy..]
    requires k <= copy + |bd| || (copy == preserve && preserve < WINDOW)
    ensures SameEnd(front + bd, h0 + bd, k)
  {
    if copy == preserve && preserve < WINDOW {
      assert front[preserve - copy..] == front;
      assert h0[|h0| - copy..] == h0;
      assert front == h0;
    } else {
      var e, e0 := front[preserve - copy..], h0[|h0| - copy..];
      assert e == e0;
      assert front == front[..preserve - copy] + e && h0 == h0[..|h0| - copy] + e0;
      EndOf(front[..preserve - copy], e, bd, k);
      EndOf(h0[..|h0| - copy], e0, bd, k);
    }
  }

  lemma Suffixes(a: seq<byte>, h0: seq<byte>, block: seq<byte>, copy: nat)
    requires SameEnd(a, h0 + block, copy + |block|) && |a| >= copy + |block| && |h0| >= copy
    ensures a[|a| - |block| - copy..|a| - |block|] == h0[|h0| - copy..]
  {
    var n := copy + |block|;
    var h := h0 + block;
    assert a[|a| - n..] == h[|h| - n..];
    assert a[|a| - |block| - copy..|a| - |block|] == a[|a| - n..][..copy];
    assert h0[|h0| - copy..] == h[|h| - n..][..copy];
  }

  lemma EndOf(p: seq<byte>, e: seq<byte>, bd: seq<byte>, k: nat)
    requires k <= |e| + |bd|
    ensures Last(p + e + bd, k) == Last(e + bd, k)
  {
    Regroup(p, e, bd);
    LastBehind(p, e + bd, k);
  }

  lemma LastBehind(p: seq<byte>, q: seq<byte>, k: nat)
    requires k <= |q|
    ensures Last(p + q, k) == Last(q, k)
  {
    var a, b := Last(p + q, k), Last(q, k);
    forall i | 0 <= i < k ensures a[i] == b[i] {
      assert a[i] == (p + q)[|p| + (|q| - k + i)] == q[|q| - k + i];
    }
  }

  /** The bytes from dstStart to dstPtr are the end of the history. */
  ghost predicate DeliveredIn(m: seq<byte>, dstStart: nat, dstPtr: nat, h: seq<byte>) {
    && dstStart <= dstPtr <= |m| && dstPtr - dstStart <= |h|
    && Bytes(m, dstStart, dstPtr) == h[|h| - (dstPtr - dstStart)..]
  }

  lemma DeliveredUntouched(now: seq<byte>, was: seq<byte>, lo: nat, hi: nat, dstStart: nat, dstPtr: nat, h: seq<byte>)
    requires Untouched(now, was, lo, hi) && DeliveredIn(was, dstStart, dstPtr, h) && (dstPtr <= lo || hi <= dstStart)
    ensures DeliveredIn(now, dstStart, dstPtr, h)
  {
    BytesKept(now, was, lo, hi, dstStart, dstPtr);
  }

  lemma DeliveredAppend(m: seq<byte>, dstStart: nat, dstPtr: nat, next: nat, h: seq<byte>, d: seq<byte>)
    requires DeliveredIn(m, dstStart, dstPtr, h) && dstPtr <= next <= |m| && Bytes(m, dstPtr, next) == d
    ensures DeliveredIn(m, dstStart, next, h + d)
  {
    BytesJoin(m, dstStart, dstPtr, next);
    var h2 := h + d;
    assert h2[|h2| - (next - dstStart)..] == h[|h| - (dstPtr - dstStart)..] + d;
  }

  // ------------------------------------------------------------- the fields

  /** The part of the decoder's context that holds the history. */
  class History {
    var mem: seq<byte>
    var tmpOutBuffer: nat
    var maxBufferSize: nat
    var dict: nat
    var dictSize: nat
    var tmpOut: nat
    var tmpOutSize: nat
    var tmpOutStart: nat

    constructor (mem: seq<byte>)
      ensures this.mem == mem && tmpOutBuffer == 0 && maxBufferSize == 0 && dict == 0 && dictSize == 0
    {
      this.mem := mem;
      tmpOutBuffer, maxBufferSize, dict, dictSize, tmpOut, tmpOutSize, tmpOutStart := 0, 0, 0, 0, 0, 0, 0;
    }

    /** The buffers lie within memory, and the dictionary inside the decoder's buffer or away from it. */
    ghost predicate Placed()
      reads this`mem, this`tmpOutBuffer, this`maxBufferSize, this`dict, this`dictSize
    {
      && 0 < tmpOutBuffer && tmpOutBuffer + maxBufferSize <= |mem| && dict + dictSize <= |mem| && (dict == 0 ==> dictSize == 0)
      && (if dict == tmpOutBuffer then dictSize <= maxBufferSize
          else dict + dictSize <= tmpOutBuffer || tmpOutBuffer + maxBufferSize <= dict)
    }

    ghost function DictBytes(): seq<byte>
      requires Placed()
      reads this`mem, this`tmpOutBuffer, this`maxBufferSize, this`dict, this`dictSize
    {
      Bytes(mem, dict, dict + dictSize)
    }

    /** A piece of memory of the caller's, not touching the decoder's buffer. */
    ghost predicate Outside(a: nat, b: nat)
      reads this`mem, this`tmpOutBuffer, this`maxBufferSize
    {
      a <= b <= |mem| && (b < tmpOutBuffer || tmpOutBuffer + maxBufferSize < a)
    }

    /** The output of this call so far is the end of the history. */
    ghost predicate Delivered(dstStart: nat, dstPtr: nat, h: seq<byte>)
      reads this`mem
    {
      DeliveredIn(mem, dstStart, dstPtr, h)
    }

    /** A decoded block lies in tmpOut, and the history so far is h0 and its part already flushed. */
    ghost predicate Flushing(h0: seq<byte>, h: seq<byte>)
      reads this`mem, this`tmpOutBuffer, this`maxBufferSize, this`tmpOut, this`tmpOutSize, this`tmpOutStart
    {
      && tmpOutBuffer <= tmpOut && tmpOutStart <= tmpOutSize && tmpOut + tmpOutSize <= tmpOutBuffer + maxBufferSize
      && tmpOutBuffer + maxBufferSize <= |mem|
      && h == h0 + Bytes(mem, tmpOut, tmpOut + tmpOutStart)
    }

    /** The dictionary while a block is flushed. */
    ghost predicate FlushDict(h0: seq<byte>, h: seq<byte>)
      reads this
    {
      && Placed() && Flushing(h0, h) && SameEnd(DictBytes(), h, Needed(tmpOutSize, tmpOutStart))
      && RoomFor(tmpOut - tmpOutBuffer, h0) && (dict == tmpOutBuffer ==> dict + dictSize == tmpOut + tmpOutStart)
    }

    /** The dictionary between blocks ends like the last 64 KB of output. */
    ghost predicate WholeDict(h: seq<byte>)
      reads this`mem, this`tmpOutBuffer, this`maxBufferSize, this`dict, this`dictSize
    {
      Placed() && SameEnd(DictBytes(), h, WINDOW)
    }

    /** The bytes [dstPtr, dstPtr + m) follow the dictionary in memory. */
    method ExtendPrefix(dstPtr: nat, m: nat, ghost h: seq<byte>, ghost k: nat, ghost k': nat, ghost next: nat)
      requires Placed() && dict + dictSize == dstPtr && dict != 0 && next == dstPtr + m <= |mem| && SameEnd(DictBytes(), h, k) && k' <= k + m
      requires if dict == tmpOutBuffer then dictSize + m <= maxBufferSize
               else next <= tmpOutBuffer || tmpOutBuffer + maxBufferSize <= dict
      modifies this`dictSize
      ensures Placed() && dictSize == old(dictSize) + m
      ensures SameEnd(DictBytes(), h + Bytes(mem, dstPtr, next), k')
    {
      hide SameEnd, Last;
      BytesJoin(mem, dict, dstPtr, next);
      SameEndAppend(DictBytes(), h, k, Bytes(mem, dstPtr, next), k');
      dictSize := dictSize + m;
      assert dict + dictSize == next;
    }

    /** History in the destination buffer is large enough to be the dictionary. */
    method MoveToDst(dstStart: nat, dstPtr: nat, m: nat, ghost h: seq<byte>, ghost k: nat, ghost next: nat)
      requires Placed() && next == dstPtr + m && 0 < dstStart && Outside(dstStart, next) && Delivered(dstStart, dstPtr, h) && dstPtr - dstStart + m >= WINDOW >= k
      modifies this`dict, this`dictSize
      ensures Placed() && dict == dstStart != tmpOutBuffer && dict + dictSize == next
      ensures SameEnd(DictBytes(), h + Bytes(mem, dstPtr, next), k)
    {
      ghost var h2 := h + Bytes(mem, dstPtr, next);
      var n := dstPtr - dstStart + m;
      BytesJoin(mem, dstStart, dstPtr, next);
      assert h2[|h2| - n..] == h[|h| - (dstPtr - dstStart)..] + Bytes(mem, dstPtr, next);
      SameEndLast(h2, n, k);
      dict, dictSize := dstStart, n;
    }

    /** The part of the destination still free does not overlap the dictionary. */
    ghost predicate Clear(dstPtr: nat, dstEnd: nat)
      reads this`dict, this`dictSize
    {
      dict + dictSize <= dstPtr || dstEnd <= dict
    }

    /** Bytes are written to the destination. */
    method Write(d: nat, part: seq<byte>, ghost e: nat)
      requires e == d + |part| <= |mem|
      modifies this`mem
      ensures |mem| == |old(mem)| && Bytes(mem, d, e) == part && Untouched(mem, old(mem), d, e)
    {
      mem := mem[..d] + part + mem[d + |part|..];
    }

    /** What a write to the free part of the destination leaves alone. */
    lemma WriteKeeps(was: seq<byte>, dstStart: nat, dstPtr: nat, next: nat, dstEnd: nat, h: seq<byte>)
      requires Untouched(mem, was, dstPtr, next) && |was| == |mem| && dstStart <= dstPtr <= next <= dstEnd <= |mem|
      requires Placed() && Clear(dstPtr, dstEnd) && DeliveredIn(was, dstStart, dstPtr, h)
      ensures DictBytes() == Bytes(was, dict, dict + dictSize)
      ensures Delivered(dstStart, dstPtr, h)
    {
      BytesKept(mem, was, dstPtr, next, dict, dict + dictSize);
      DeliveredUntouched(mem, was, dstPtr, next, dstStart, dstPtr, h);
    }

    /** Having delivered the bytes d behind dstPtr. */
    lemma DeliveredMore(was: seq<byte>, dstStart: nat, dstPtr: nat, next: nat, h: seq<byte>, d: seq<byte>, lo: nat, hi: nat)
      requires |was| == |mem| && Untouched(mem, was, lo, hi) && dstStart <= dstPtr <= next <= |mem| && (next <= lo || hi <= dstStart)
      requires DeliveredIn(was, dstStart, dstPtr, h) && Bytes(was, dstPtr, next) == d
      ensures Delivered(dstStart, next, h + d)
    {
      hide DeliveredIn, Bytes;
      DeliveredAppend(was, dstStart, dstPtr, next, h, d);
      DeliveredUntouched(mem, was, lo, hi, dstStart, next, h + d);
    }

    /** Output outside of a flush: written to the destination, and added to the history. */
    method DeliverDirect(ghost from: nat, dstStart: nat, dstPtr: nat, ghost dstEnd: nat, part: seq<byte>, linked: bool, ghost h: seq<byte>, ghost next: nat)
      requires Placed() && next == dstPtr + |part| <= dstEnd && 0 < dstStart <= dstPtr && from <= dstStart && Outside(from, dstEnd) && Delivered(from, dstPtr, h)
      requires if linked then WholeDict(h) && maxBufferSize >= 3 * WINDOW else dict == 0 && dictSize == 0
      requires Clear(dstPtr, dstEnd)
      modifies this`mem, this`dict, this`dictSize
      ensures Placed() && |mem| == |old(mem)| && Delivered(from, next, h + part) && Clear(next, dstEnd) && Outside(from, dstEnd)
      ensures if linked then WholeDict(h + part) else dict == 0 && dictSize == 0
      ensures Bytes(mem, dstPtr, next) == part
    {
      hide SameEnd, Last, WholeDict, Bytes, DeliveredIn;
      ghost var was := mem;
      WholeIs(h);
      Write(dstPtr, part, next);
      WriteKeeps(was, from, dstPtr, next, dstEnd, h);
      DeliveredEnd(from, dstStart, dstPtr, h);
      WholeIs(h);
      ghost var mid := mem;
      ghost var bufferEnd := tmpOutBuffer + maxBufferSize;
      if linked {
        UpdateDict(dstPtr, |part|, dstStart, h, next);
        WholeIs(h + part);
      } else {
        UntouchedSame(mem, tmpOutBuffer, bufferEnd);
      }
      DeliveredMore(mid, from, dstPtr, next, h, part, tmpOutBuffer, bufferEnd);
      BytesKept(mem, mid, tmpOutBuffer, bufferEnd, dstPtr, next);
    }

    lemma DeliveredEnd(from: nat, dstStart: nat, dstPtr: nat, h: seq<byte>)
      requires Delivered(from, dstPtr, h) && from <= dstStart <= dstPtr
      ensures Delivered(dstStart, dstPtr, h)
    {
      BytesInside(mem, from, dstPtr, dstStart, dstPtr);
    }

    /** The dictionary that a block decoder is given. */
    function DictWindow(): seq<byte>
      requires dict + dictSize <= |mem|
      reads this`mem, this`dict, this`dictSize
    {
      Last(mem[dict..dict + dictSize], WINDOW)
    }

    /** Where the next block is decoded inside the decoder's buffer: behind the part of the history
        that is or will be in front of it. */
    method PlaceTmpOut(maxBlock: nat, ghost h: seq<byte>, ghost bufferEnd: nat)
      requires WholeDict(h) && maxBufferSize >= maxBlock + 2 * WINDOW && maxBlock >= WINDOW && bufferEnd == tmpOutBuffer + maxBufferSize
      modifies this`mem, this`dict, this`dictSize, this`tmpOut
      ensures WholeDict(h) && tmpOutBuffer <= tmpOut && tmpOut + maxBlock <= bufferEnd && RoomFor(tmpOut - tmpOutBuffer, h)
      ensures dict == old(dict) && (dict == tmpOutBuffer ==> dict + dictSize == tmpOut) && dictSize <= old(dictSize)
      ensures Untouched(mem, old(mem), tmpOutBuffer, bufferEnd) && |mem| == |old(mem)| && Placed()
    {
      UntouchedSame(mem, tmpOutBuffer, bufferEnd);
      EndSizes(DictBytes(), h);
      hide SameEnd, Last;
      if dict == tmpOutBuffer {
        if dictSize > 2 * WINDOW {
          SaveDict(WINDOW, h, WINDOW, bufferEnd);
        }
        tmpOut := tmpOutBuffer + dictSize;
      } else {
        tmpOut := tmpOutBuffer + (if dictSize < WINDOW then dictSize else WINDOW);
      }
    }

    lemma EndSizes(a: seq<byte>, h: seq<byte>)
      requires SameEnd(a, h, WINDOW)
      ensures if |a| < WINDOW then |h| == |a| else |h| >= WINDOW
    {
      assert |Last(a, WINDOW)| == |Last(h, WINDOW)|;
    }

    /** A block is decoded into tmpOut. */
    method DecodeToTmp(block: seq<byte>, linked: bool, ghost h: seq<byte>, ghost bufferEnd: nat, ghost e: nat)
      requires Placed() && bufferEnd == tmpOutBuffer + maxBufferSize && tmpOutBuffer <= tmpOut && e == tmpOut + |block| <= bufferEnd
      requires if linked then WholeDict(h) && RoomFor(tmpOut - tmpOutBuffer, h) && (dict == tmpOutBuffer ==> dict + dictSize == tmpOut)
               else dict == 0 && dictSize == 0
      modifies this`mem, this`tmpOutSize, this`tmpOutStart
      ensures |mem| == |old(mem)| && Placed() && Flushing(h, h) && tmpOutStart == 0 && tmpOutSize == |block| && Bytes(mem, tmpOut, e) == block
      ensures if linked then FlushDict(h, h) else dict == 0 && dictSize == 0
      ensures Untouched(mem, old(mem), tmpOutBuffer, bufferEnd)
    {
      hide SameEnd, Last, Needed, RoomFor, WholeDict, FlushDict, Bytes;
      WholeIs(h);
      ghost var was, dictEnd := mem, dict + dictSize;
      Write(tmpOut, block, e);
      tmpOutSize, tmpOutStart := |block|, 0;
      UntouchedWider(mem, was, tmpOut, e, tmpOutBuffer, bufferEnd);
      FlushStarts(h);
      if linked {
        BytesKept(mem, was, tmpOut, e, dict, dictEnd);
        FlushDictStarts(h);
      }
    }

    lemma FlushStarts(h: seq<byte>)
      requires tmpOutStart == 0 && tmpOut <= |mem|
      ensures h == h + Bytes(mem, tmpOut, tmpOut + tmpOutStart)
    {
    }

    lemma FlushDictStarts(h: seq<byte>)
      requires Placed() && Flushing(h, h) && SameEnd(DictBytes(), h, WINDOW) && tmpOutStart == 0
      requires RoomFor(tmpOut - tmpOutBuffer, h) && (dict == tmpOutBuffer ==> dict + dictSize == tmpOut)
      ensures FlushDict(h, h)
    {
      SameEndFewer(DictBytes(), h, WINDOW, Needed(tmpOutSize, 0));
      hide SameEnd, Flushing, RoomFor;
    }

    /** m bytes of the decoded block are flushed to the destination. */
    method DeliverFlush(ghost from: nat, dstStart: nat, dstPtr: nat, ghost dstEnd: nat, m: nat, linked: bool, ghost h0: seq<byte>, ghost h: seq<byte>, ghost next: nat,
                        ghost flushed: nat, ghost flushNext: nat, ghost blockEnd: nat)
      requires Placed() && Flushing(h0, h) && next == dstPtr + m <= dstEnd && 0 < dstStart <= dstPtr && from <= dstStart && tmpOutStart + m <= tmpOutSize
      requires Outside(from, dstEnd) && Delivered(from, dstPtr, h) && Clear(dstPtr, dstEnd)
      requires blockEnd == tmpOut + tmpOutSize && flushed == tmpOut + tmpOutStart && flushNext == flushed + m
      requires if linked then FlushDict(h0, h) else dict == 0 && dictSize == 0
      modifies this`mem, this`dict, this`dictSize, this`tmpOutStart
      ensures Placed() && |mem| == |old(mem)| && Outside(from, dstEnd) && Clear(next, dstEnd)
      ensures tmpOutStart == old(tmpOutStart) + m && Bytes(mem, tmpOut, blockEnd) == Bytes(old(mem), tmpOut, blockEnd)
      ensures var h' := h + Bytes(old(mem), flushed, flushNext);
        Delivered(from, next, h') && Flushing(h0, h') && (if linked then FlushDict(h0, h') else dict == 0 && dictSize == 0)
    {
      hide SameEnd, Last, Needed, RoomFor, FlushDict, Bytes, Flushing, DeliveredIn, Placed, Untouched, Clear, Outside;
      FlushPlace(h0, h, flushed, blockEnd);
      ghost var part := Bytes(mem, flushed, flushNext);
      WriteFlushed(from, dstPtr, dstEnd, m, linked, h0, h, next, flushed, flushNext, blockEnd);
      FlushPlace(h0, h, flushed, blockEnd);
      if linked { FlushIs(h0, h, flushed); }
      ghost var mid := mem;
      AdvanceDict(from, dstStart, dstPtr, m, linked, h0, h, next, flushed, flushNext, dstEnd);
      OutsideIs(from, dstEnd);
      FlushedMore(mid, h0, h, from, dstPtr, next, flushed, flushNext, blockEnd, part);
      tmpOutStart := tmpOutStart + m;
      FlushedIs(h0, h, part, flushNext, linked, blockEnd);
    }

    lemma OutsideIs(a: nat, b: nat)
      requires Outside(a, b)
      ensures a <= b <= |mem| && (b < tmpOutBuffer || tmpOutBuffer + maxBufferSize < a)
    {
    }

    /** The bytes are written to the destination. */
    method WriteFlushed(ghost from: nat, dstPtr: nat, ghost dstEnd: nat, m: nat, ghost linked: bool, ghost h0: seq<byte>, ghost h: seq<byte>, ghost next: nat,
                        ghost flushed: nat, ghost flushNext: nat, ghost blockEnd: nat)
      requires Placed() && Flushing(h0, h) && next == dstPtr + m <= dstEnd && from <= dstPtr && tmpOutStart + m <= tmpOutSize
      requires Outside(from, dstEnd) && Delivered(from, dstPtr, h) && Clear(dstPtr, dstEnd)
      requires blockEnd == tmpOut + tmpOutSize && flushed == tmpOut + tmpOutStart && flushNext == flushed + m
      requires linked ==> FlushDict(h0, h)
      modifies this`mem
      ensures Placed() && |mem| == |old(mem)| && Outside(from, dstEnd) && Flushing(h0, h) && (linked ==> FlushDict(h0, h)) && Delivered(from, dstPtr, h)
      ensures flushNext <= blockEnd <= |mem| && Bytes(mem, flushed, flushNext) == Bytes(old(mem), flushed, flushNext) == Bytes(mem, dstPtr, next)
      ensures Bytes(mem, tmpOut, blockEnd) == Bytes(old(mem), tmpOut, blockEnd)
    {
      hide SameEnd, Last, Needed, RoomFor, FlushDict, Bytes, Flushing, DeliveredIn;
      FlushPlace(h0, h, flushed, blockEnd);
      if linked { FlushIs(h0, h, flushed); }
      ghost var was := mem;
      var at := tmpOut + tmpOutStart;
      var to := at + m;
      Write(dstPtr, Bytes(mem, at, to), next);
      FlushKeeps(was, h0, h, from, dstPtr, next, dstEnd, flushed, flushNext, blockEnd, linked);
    }

    /** And added to the dictionary, if there is one. */
    method AdvanceDict(ghost from: nat, dstStart: nat, dstPtr: nat, m: nat, linked: bool, ghost h0: seq<byte>, ghost h: seq<byte>, ghost next: nat,
                       ghost flushed: nat, ghost flushNext: nat, ghost dstEnd: nat)
      requires Placed() && next == dstPtr + m <= dstEnd && 0 < dstStart <= dstPtr && from <= dstStart && tmpOutStart + m <= tmpOutSize
      requires Outside(from, dstEnd) && Delivered(from, dstPtr, h) && Clear(dstPtr, dstEnd) && flushed == tmpOut + tmpOutStart && flushNext == flushed + m <= |mem|
      requires Bytes(mem, dstPtr, next) == Bytes(mem, flushed, flushNext) && tmpOutBuffer <= tmpOut <= |mem|
      requires if linked then FlushDict(h0, h) else dict == 0 && dictSize == 0
      modifies this`mem, this`dict, this`dictSize
      ensures Placed() && |mem| == |old(mem)| && Outside(from, dstEnd) && Untouched(mem, old(mem), tmpOutBuffer, tmpOut) && Clear(next, dstEnd)
      ensures if linked then SameEnd(DictBytes(), h + Bytes(old(mem), dstPtr, next), Needed(tmpOutSize, tmpOutStart + m)) && (dict == tmpOutBuffer ==> dict + dictSize == flushNext)
              else dict == 0 && dictSize == 0
    {
      hide SameEnd, Last, Needed, FlushDict, Bytes, Delivered;
      UntouchedSame(mem, tmpOutBuffer, tmpOut);
      if linked {
        DeliveredEnd(from, dstStart, dstPtr, h);
        FlushDictPlace(h0, h);
        UpdateDictWithinTmp(dstPtr, m, dstStart, h0, h, next, flushed, flushNext);
      }
    }

    lemma FlushDictPlace(h0: seq<byte>, h: seq<byte>)
      requires FlushDict(h0, h)
      ensures tmpOut + tmpOutSize <= tmpOutBuffer + maxBufferSize
    {
      hide SameEnd, RoomFor;
    }

    /** The write to the destination leaves the block, the dictionary and the output before it alone. */
    lemma FlushKeeps(was: seq<byte>, h0: seq<byte>, h: seq<byte>, dstStart: nat, dstPtr: nat, next: nat, dstEnd: nat,
                     flushed: nat, flushNext: nat, blockEnd: nat, linked: bool)
      requires |was| == |mem| && Untouched(mem, was, dstPtr, next) && Placed() && Clear(dstPtr, dstEnd) && Outside(dstStart, dstEnd)
      requires dstStart <= dstPtr <= next <= dstEnd
      requires flushed == tmpOut + tmpOutStart && blockEnd == tmpOut + tmpOutSize && flushed <= flushNext <= blockEnd
      requires tmpOutBuffer <= tmpOut && blockEnd <= tmpOutBuffer + maxBufferSize && h == h0 + Bytes(was, tmpOut, flushed)
      requires DeliveredIn(was, dstStart, dstPtr, h)
      requires linked ==> SameEnd(Bytes(was, dict, dict + dictSize), h, Needed(tmpOutSize, tmpOutStart))
      requires linked ==> RoomFor(tmpOut - tmpOutBuffer, h0) && (dict == tmpOutBuffer ==> dict + dictSize == flushed)
      ensures Flushing(h0, h) && (linked ==> FlushDict(h0, h)) && Delivered(dstStart, dstPtr, h)
      ensures Bytes(mem, flushed, flushNext) == Bytes(was, flushed, flushNext) && Bytes(mem, tmpOut, blockEnd) == Bytes(was, tmpOut, blockEnd)
      ensures h == h0 + Bytes(mem, tmpOut, flushed)
    {
      hide SameEnd, Last, Needed, RoomFor, Bytes, DeliveredIn;
      WriteKeeps(was, dstStart, dstPtr, next, dstEnd, h);
      BytesKept(mem, was, dstPtr, next, tmpOut, flushed);
      BytesKept(mem, was, dstPtr, next, flushed, flushNext);
      BytesKept(mem, was, dstPtr, next, tmpOut, blockEnd);
    }

    lemma FlushedMore(mid: seq<byte>, h0: seq<byte>, h: seq<byte>, dstStart: nat, dstPtr: nat, next: nat, flushed: nat, flushNext: nat, blockEnd: nat, part: seq<byte>)
      requires |mid| == |mem| && Untouched(mem, mid, tmpOutBuffer, tmpOut) && dstStart <= dstPtr <= next <= |mem|
      requires next < tmpOutBuffer || tmpOutBuffer + maxBufferSize < dstStart
      requires tmpOutBuffer <= tmpOut <= flushed <= flushNext <= blockEnd <= tmpOutBuffer + maxBufferSize <= |mem|
      requires DeliveredIn(mid, dstStart, dstPtr, h)
      requires Bytes(mid, dstPtr, next) == part == Bytes(mid, flushed, flushNext) && h == h0 + Bytes(mid, tmpOut, flushed)
      ensures Delivered(dstStart, next, h + part) && Bytes(mem, tmpOut, blockEnd) == Bytes(mid, tmpOut, blockEnd)
      ensures h0 + Bytes(mem, tmpOut, flushNext) == h + part
    {
      hide Bytes, DeliveredIn;
      DeliveredMore(mid, dstStart, dstPtr, next, h, part, tmpOutBuffer, tmpOut);
      BytesKept(mem, mid, tmpOutBuffer, tmpOut, tmpOut, blockEnd);
      BytesKept(mem, mid, tmpOutBuffer, tmpOut, tmpOut, flushNext);
      BytesJoin(mid, tmpOut, flushed, flushNext);
      Regroup(h0, Bytes(mid, tmpOut, flushed), part);
    }

    lemma FlushedIs(h0: seq<byte>, h: seq<byte>, part: seq<byte>, flushNext: nat, linked: bool, blockEnd: nat)
      requires Placed() && flushNext == tmpOut + tmpOutStart <= blockEnd == tmpOut + tmpOutSize <= tmpOutBuffer + maxBufferSize && tmpOutBuffer <= tmpOut
      requires h0 + Bytes(mem, tmpOut, flushNext) == h + part
      requires linked ==> SameEnd(DictBytes(), h + part, Needed(tmpOutSize, tmpOutStart)) && RoomFor(tmpOut - tmpOutBuffer, h0)
      requires linked ==> (dict == tmpOutBuffer ==> dict + dictSize == flushNext)
      ensures Flushing(h0, h + part) && (linked ==> FlushDict(h0, h + part))
    {
      hide SameEnd, Last, Needed, RoomFor, Bytes;
    }

    lemma FlushPlace(h0: seq<byte>, h: seq<byte>, flushed: nat, blockEnd: nat)
      requires Flushing(h0, h) && flushed == tmpOut + tmpOutStart && blockEnd == tmpOut + tmpOutSize
      ensures tmpOutBuffer <= tmpOut <= flushed <= blockEnd <= tmpOutBuffer + maxBufferSize <= |mem| && h == h0 + Bytes(mem, tmpOut, flushed)
    {
    }

    /** Output stays where it is while only the decoder's buffer changes. */
    lemma DeliveredKept(was: seq<byte>, dstStart: nat, dstPtr: nat, dstEnd: nat, h: seq<byte>, lo: nat, hi: nat)
      requires |was| == |mem| && Untouched(mem, was, lo, hi) && dstStart <= dstPtr <= dstEnd <= |mem| && (dstEnd <= lo || hi <= dstStart)
      requires DeliveredIn(was, dstStart, dstPtr, h)
      ensures Delivered(dstStart, dstPtr, h)
    {
      hide DeliveredIn;
      DeliveredUntouched(mem, was, lo, hi, dstStart, dstPtr, h);
    }

    /** At the end of a call a dictionary in the destination moves into the decoder's buffer. */
    method PreserveWhole(ghost h: seq<byte>, ghost bufferEnd: nat)
      requires WholeDict(h) && dict != tmpOutBuffer && maxBufferSize >= WINDOW && bufferEnd == tmpOutBuffer + maxBufferSize
      modifies this`mem, this`dict, this`dictSize, this`tmpOut
      ensures WholeDict(h) && dict == tmpOutBuffer && |mem| == |old(mem)| && Untouched(mem, old(mem), tmpOutBuffer, bufferEnd)
    {
      hide SameEnd, Last;
      var newDictSize := if dictSize < WINDOW then dictSize else WINDOW;
      SaveDict(newDictSize, h, WINDOW, bufferEnd);
      tmpOut := tmpOutBuffer + newDictSize;
    }

    method PreserveFlushing(ghost h0: seq<byte>, ghost h: seq<byte>, ghost flushed: nat, ghost blockEnd: nat)
      requires FlushDict(h0, h) && dict != tmpOutBuffer && flushed == tmpOut + tmpOutStart && blockEnd == tmpOut + tmpOutSize
      modifies this`mem, this`dict, this`dictSize
      ensures FlushDict(h0, h) && dict == tmpOutBuffer && |mem| == |old(mem)| && Untouched(mem, old(mem), tmpOutBuffer, tmpOut)
      ensures Bytes(mem, tmpOut, blockEnd) == Bytes(old(mem), tmpOut, blockEnd)
    {
      hide SameEnd, Last, Needed, RoomFor, FlushDict, Flushing, Bytes;
      FlushPlaceOf(h0, h, flushed, blockEnd);
      FlushIs(h0, h, flushed);
      ghost var was := mem;
      CopyInFront(0, h0, h, flushed, flushed);
      BytesKept(mem, was, tmpOutBuffer, tmpOut, tmpOut, blockEnd);
      BytesKept(mem, was, tmpOutBuffer, tmpOut, tmpOut, flushed);
      NoneAdded(h, flushed);
      FlushedIs(h0, h, [], flushed, true, blockEnd);
    }

    lemma FlushPlaceOf(h0: seq<byte>, h: seq<byte>, flushed: nat, blockEnd: nat)
      requires FlushDict(h0, h) && flushed == tmpOut + tmpOutStart && blockEnd == tmpOut + tmpOutSize
      ensures tmpOutBuffer <= tmpOut <= flushed <= blockEnd <= tmpOutBuffer + maxBufferSize <= |mem| && h == h0 + Bytes(mem, tmpOut, flushed)
    {
    }

    lemma FlushingFrom(h0: seq<byte>, h: seq<byte>, flushed: nat)
      requires FlushDict(h0, h) && flushed == tmpOut + tmpOutStart
      ensures Placed() && Flushing(h0, h) && (dict == tmpOutBuffer ==> dictSize <= maxBufferSize)
    {
      hide SameEnd, RoomFor;
    }

    lemma NoneAdded(h: seq<byte>, at: nat)
      requires at <= |mem|
      ensures h + Bytes(mem, at, at) == h && h + [] == h
    {
    }

    /** LZ4F_updateDict, after the bytes [dstPtr, dstPtr + m) were delivered outside of a flush. */
    method UpdateDict(dstPtr: nat, m: nat, dstStart: nat, ghost h: seq<byte>, ghost next: nat)
      requires WholeDict(h) && maxBufferSize >= 3 * WINDOW && next == dstPtr + m
      requires 0 < dstStart <= dstPtr && Outside(dstStart, next) && Delivered(dstStart, dstPtr, h)
      modifies this`mem, this`dict, this`dictSize
      ensures WholeDict(h + Bytes(old(mem), dstPtr, next))
      ensures Untouched(mem, old(mem), tmpOutBuffer, tmpOutBuffer + maxBufferSize)
      ensures dict == tmpOutBuffer || (dict + dictSize == next && (dict == old(dict) || dict == dstPtr || dict == dstStart))
    {
      hide SameEnd, Last, WholeDict, Delivered;
      WholeIs(h);
      UntouchedSame(mem, tmpOutBuffer, tmpOutBuffer + maxBufferSize);
      if dictSize == 0 {
        NoBytes(mem, dict, mem, dstPtr);
        dict := dstPtr;
      }
      if dict + dictSize == dstPtr {
        ExtendPrefix(dstPtr, m, h, WINDOW, WINDOW, next);
        WholeIs(h + Bytes(mem, dstPtr, next));
        return;
      }
      if dstPtr - dstStart + m >= WINDOW {
        MoveToDst(dstStart, dstPtr, m, h, WINDOW, next);
        WholeIs(h + Bytes(mem, dstPtr, next));
        return;
      }
      WholeIs(h);
      if dict == tmpOutBuffer {
        CompleteInTmp(dstPtr, m, h, next);
      } else {
        JoinInTmp(dstPtr, m, h, next);
      }
    }

    /** LZ4F_updateDict during a flush: the same bytes stand at tmpOut + tmpOutStart. */
    method UpdateDictWithinTmp(dstPtr: nat, m: nat, dstStart: nat, ghost h0: seq<byte>, ghost h: seq<byte>, ghost next: nat, ghost flushed: nat, ghost flushNext: nat)
      requires FlushDict(h0, h) && next == dstPtr + m && flushed == tmpOut + tmpOutStart && flushNext == flushed + m
      requires tmpOutStart + m <= tmpOutSize && 0 < dstStart <= dstPtr && Outside(dstStart, next) && Delivered(dstStart, dstPtr, h)
      requires Bytes(mem, dstPtr, next) == Bytes(mem, flushed, flushNext)
      modifies this`mem, this`dict, this`dictSize
      ensures Placed() && SameEnd(DictBytes(), h + Bytes(old(mem), dstPtr, next), Needed(tmpOutSize, tmpOutStart + m))
      ensures Untouched(mem, old(mem), tmpOutBuffer, tmpOut)
      ensures dict + dictSize == (if dict == tmpOutBuffer then flushNext else next)
      ensures dict == tmpOutBuffer || dict == old(dict) || dict == dstPtr || dict == dstStart
    {
      hide SameEnd, Last, Needed, FlushDict, Flushing, Delivered, Bytes, RoomFor;
      FlushIs(h0, h, flushed);
      ghost var k, k' := Needed(tmpOutSize, tmpOutStart), Needed(tmpOutSize, tmpOutStart + m);
      NeededGrows(tmpOutSize, tmpOutStart, m);
      UntouchedSame(mem, tmpOutBuffer, tmpOut);
      if dictSize == 0 {
        NoBytes(mem, dict, mem, dstPtr);
        dict := dstPtr;
      }
      if dict + dictSize == dstPtr || dstPtr - dstStart + m >= WINDOW {
        FollowOutput(dstPtr, m, dstStart, h, next, k, k');
      } else {
        CompleteWithinTmp(m, h0, h, flushed, flushNext);
      }
    }

    /** The dictionary goes on in the destination, or starts there. */
    method FollowOutput(dstPtr: nat, m: nat, dstStart: nat, ghost h: seq<byte>, ghost next: nat, ghost k: nat, ghost k': nat)
      requires Placed() && dict != 0 && SameEnd(DictBytes(), h, k) && k' <= k + m && k' <= WINDOW && next == dstPtr + m
      requires 0 < dstStart <= dstPtr && Outside(dstStart, next) && Delivered(dstStart, dstPtr, h)
      requires dict + dictSize == dstPtr || dstPtr - dstStart + m >= WINDOW
      requires dict + dictSize == dstPtr ==> dict != tmpOutBuffer
      modifies this`dict, this`dictSize
      ensures Placed() && dict != tmpOutBuffer && dict + dictSize == next && (dict == old(dict) || dict == dstStart)
      ensures SameEnd(DictBytes(), h + Bytes(mem, dstPtr, next), k')
    {
      hide SameEnd, Last, Delivered, Bytes;
      if dict + dictSize == dstPtr {
        ExtendPrefix(dstPtr, m, h, k, k', next);
      } else {
        MoveToDst(dstStart, dstPtr, m, h, k', next);
      }
    }

    /** The same when the dictionary is, or has to be, in front of the block. */
    method CompleteWithinTmp(m: nat, ghost h0: seq<byte>, ghost h: seq<byte>, ghost flushed: nat, ghost flushNext: nat)
      requires FlushDict(h0, h) && flushed == tmpOut + tmpOutStart && flushNext == flushed + m && tmpOutStart + m <= tmpOutSize && flushNext <= |mem|
      modifies this`mem, this`dict, this`dictSize
      ensures Placed() && dict == tmpOutBuffer && dict + dictSize == flushNext && Untouched(mem, old(mem), tmpOutBuffer, tmpOut)
      ensures SameEnd(DictBytes(), h + Bytes(old(mem), flushed, flushNext), Needed(tmpOutSize, tmpOutStart + m))
    {
      hide SameEnd, Last, Needed, FlushDict, Flushing, Bytes, RoomFor;
      FlushIs(h0, h, flushed);
      UntouchedSame(mem, tmpOutBuffer, tmpOut);
      if dict == tmpOutBuffer {
        NeededGrows(tmpOutSize, tmpOutStart, m);
        ExtendPrefix(tmpOut + tmpOutStart, m, h, Needed(tmpOutSize, tmpOutStart), Needed(tmpOutSize, tmpOutStart + m), flushNext);
      } else {
        ghost var was := mem;
        CopyInFront(m, h0, h, flushed, flushNext);
        BytesKept(mem, was, tmpOutBuffer, tmpOut, flushed, flushNext);
      }
    }

    /** memcpy */
    method Move(d: nat, s: nat, n: nat, ghost e: nat, ghost se: nat)
      requires e == d + n <= |mem| && se == s + n <= |mem| && (n == 0 || e <= s || se <= d)
      modifies this`mem
      ensures |mem| == |old(mem)| && Bytes(mem, d, e) == Bytes(old(mem), s, se) && Untouched(mem, old(mem), d, e)
    {
      CopiedParts(mem, d, s, n, e, se);
      mem := Copied(mem, d, s, n);
    }

    /** The part of the window that lies before the block being flushed moves in front of it. */
    method CopyInFront(m: nat, ghost h0: seq<byte>, ghost h: seq<byte>, ghost flushed: nat, ghost next: nat)
      requires FlushDict(h0, h) && dict != tmpOutBuffer && tmpOutStart + m <= tmpOutSize
      requires flushed == tmpOut + tmpOutStart && next == flushed + m
      modifies this`mem, this`dict, this`dictSize
      ensures Placed() && dict == tmpOutBuffer && dict + dictSize == next && Untouched(mem, old(mem), tmpOutBuffer, tmpOut)
      ensures SameEnd(DictBytes(), h + Bytes(mem, flushed, next), Needed(tmpOutSize, tmpOutStart + m))
    {
      hide SameEnd, Last, Copied, Needed, FlushDict, Flushing, Bytes, RoomFor, Untouched;
      FlushIs(h0, h, flushed);
      var preserveSize := tmpOut - tmpOutBuffer;
      var copySize := if tmpOutSize > WINDOW then 0 else WINDOW - tmpOutSize;
      if copySize > preserveSize { copySize := preserveSize; }
      RoomCopy(preserveSize, copySize, h0);
      ghost var was, a, block := mem, DictBytes(), Bytes(mem, tmpOut, flushed);
      EnoughBefore(a, h0, block, tmpOutSize, copySize);
      MoveInFront(copySize, block);
      FrontJoined(was, a, h0, block, preserveSize, copySize, flushed, next);
      dict := tmpOutBuffer;
      dictSize := preserveSize + tmpOutStart + m;
      assert dict + dictSize == next;
    }

    lemma FrontJoined(was: seq<byte>, a: seq<byte>, h0: seq<byte>, block: seq<byte>, preserve: nat, copy: nat, flushed: nat, next: nat)
      requires |mem| == |was| && Untouched(mem, was, tmpOutBuffer, tmpOut) && tmpOutBuffer <= tmpOut <= flushed <= next <= tmpOut + tmpOutSize && next <= |mem|
      requires preserve == tmpOut - tmpOutBuffer && block == Bytes(was, tmpOut, flushed)
      requires SameEnd(a, h0 + block, Needed(tmpOutSize, |block|)) && RoomFor(preserve, h0)
      requires copy == (var c := if tmpOutSize > WINDOW then 0 else WINDOW - tmpOutSize; if c > preserve then preserve else c)
      requires copy > 0 ==> |a| >= copy + |block| && EndsBefore(Bytes(mem, tmpOutBuffer, tmpOut), a, |block|, copy)
      ensures SameEnd(Bytes(mem, tmpOutBuffer, next), h0 + block + Bytes(mem, flushed, next), Needed(tmpOutSize, next - tmpOut))
    {
      hide SameEnd, Needed, RoomFor, Untouched, EndsBefore;
      ghost var d := Bytes(mem, flushed, next);
      BytesKept(mem, was, tmpOutBuffer, tmpOut, tmpOut, flushed);
      InFront(a, h0, block, tmpOutSize, preserve, copy, Bytes(mem, tmpOutBuffer, tmpOut), d);
      BytesJoin(mem, tmpOut, flushed, next);
      BytesJoin(mem, tmpOutBuffer, tmpOut, next);
      Regroup(h0, block, d);
    }

    lemma RoomCopy(preserve: nat, copy: nat, h0: seq<byte>)
      requires RoomFor(preserve, h0) && copy <= preserve && copy <= WINDOW
      ensures copy <= |h0|
    {
    }

    lemma FlushIs(h0: seq<byte>, h: seq<byte>, flushed: nat)
      requires FlushDict(h0, h) && flushed == tmpOut + tmpOutStart
      ensures Placed() && tmpOutBuffer <= tmpOut && tmpOutStart <= tmpOutSize && tmpOut + tmpOutSize <= tmpOutBuffer + maxBufferSize
      ensures h == h0 + Bytes(mem, tmpOut, flushed) && |Bytes(mem, tmpOut, flushed)| == tmpOutStart
      ensures SameEnd(DictBytes(), h, Needed(tmpOutSize, tmpOutStart))
      ensures RoomFor(tmpOut - tmpOutBuffer, h0)
      ensures dict == tmpOutBuffer ==> dict + dictSize == flushed
    {
    }

    /** The copy itself. */
    method MoveInFront(copySize: nat, ghost block: seq<byte>)
      requires Placed() && dict != tmpOutBuffer && copySize <= tmpOut - tmpOutBuffer && tmpOut <= tmpOutBuffer + maxBufferSize
      requires |block| == tmpOutStart && (copySize > 0 ==> dictSize >= copySize + tmpOutStart)
      modifies this`mem
      ensures Placed() && |mem| == |old(mem)| && Untouched(mem, old(mem), tmpOutBuffer, tmpOut)
      ensures copySize > 0 ==> EndsBefore(Bytes(mem, tmpOutBuffer, tmpOut), old(DictBytes()), |block|, copySize)
    {
      ghost var was, dictEnd := mem, dict + dictSize;
      UntouchedSame(was, tmpOutBuffer, tmpOut);
      if copySize > 0 {
        hide Copied, Bytes, Untouched;
        var oldDictEnd := dict + dictSize - tmpOutStart;
        var from, to := oldDictEnd - copySize, tmpOut - copySize;
        Move(to, from, copySize, tmpOut, oldDictEnd);
        UntouchedWider(mem, was, to, tmpOut, tmpOutBuffer, tmpOut);
        Moved(was, dict, dictEnd, from, oldDictEnd, mem, tmpOutBuffer, tmpOut, to, |block|, copySize);
      }
    }

    /** The destination's bytes are added behind the dictionary in the decoder's buffer. */
    method CompleteInTmp(dstPtr: nat, m: nat, ghost h: seq<byte>, ghost dstNext: nat)
      requires WholeDict(h) && dict == tmpOutBuffer && Outside(dstPtr, dstNext) && dstNext == dstPtr + m && m < WINDOW && maxBufferSize >= 3 * WINDOW
      modifies this`mem, this`dict, this`dictSize
      ensures WholeDict(h + Bytes(old(mem), dstPtr, dstNext)) && dict == tmpOutBuffer
      ensures Untouched(mem, old(mem), tmpOutBuffer, tmpOutBuffer + maxBufferSize)
    {
      hide SameEnd, Last, Copied, WholeDict;
      WholeIs(h);
      ghost var was, k, bufferEnd := mem, WINDOW, tmpOutBuffer + maxBufferSize;
      UntouchedSame(was, tmpOutBuffer, bufferEnd);
      if dictSize + m > maxBufferSize {
        k := WINDOW - m;
        SaveDict(WINDOW - m, h, WINDOW - m, bufferEnd);
      }
      AppendToTmp(dstPtr, m, h, k, was, bufferEnd, dstNext);
    }

    /** The end of the dictionary and the destination's bytes are joined in the decoder's buffer. */
    method JoinInTmp(dstPtr: nat, m: nat, ghost h: seq<byte>, ghost dstNext: nat)
      requires WholeDict(h) && dict != tmpOutBuffer && Outside(dstPtr, dstNext) && dstNext == dstPtr + m && m < WINDOW && maxBufferSize >= 3 * WINDOW
      modifies this`mem, this`dict, this`dictSize
      ensures WholeDict(h + Bytes(old(mem), dstPtr, dstNext)) && dict == tmpOutBuffer
      ensures Untouched(mem, old(mem), tmpOutBuffer, tmpOutBuffer + maxBufferSize)
    {
      hide SameEnd, Last, Copied, WholeDict;
      WholeIs(h);
      ghost var was, bufferEnd := mem, tmpOutBuffer + maxBufferSize;
      var preserveSize := WINDOW - m;
      if preserveSize > dictSize { preserveSize := dictSize; }
      SaveDict(preserveSize, h, WINDOW - m, bufferEnd);
      AppendToTmp(dstPtr, m, h, WINDOW - m, was, bufferEnd, dstNext);
    }

    lemma WholeIs(h: seq<byte>)
      ensures WholeDict(h) <==> Placed() && SameEnd(DictBytes(), h, WINDOW)
    {
    }

    /** memcpy behind the dictionary in the decoder's buffer. */
    method AppendToTmp(dstPtr: nat, m: nat, ghost h: seq<byte>, ghost k: nat, ghost was: seq<byte>, ghost bufferEnd: nat, ghost dstNext: nat)
      requires Placed() && dict == tmpOutBuffer && dictSize + m <= maxBufferSize && SameEnd(DictBytes(), h, k) && k + m >= WINDOW
      requires Outside(dstPtr, dstNext) && dstNext == dstPtr + m
      requires bufferEnd == tmpOutBuffer + maxBufferSize && |was| == |mem| && Untouched(mem, was, tmpOutBuffer, bufferEnd)
      modifies this`mem, this`dictSize
      ensures WholeDict(h + Bytes(was, dstPtr, dstNext))
      ensures Untouched(mem, was, tmpOutBuffer, bufferEnd)
    {
      hide SameEnd, Last, Copied;
      BytesKept(mem, was, tmpOutBuffer, bufferEnd, dstPtr, dstNext);
      ghost var mid := mem;
      var to := tmpOutBuffer + dictSize;
      ghost var e := to + m;
      Move(to, dstPtr, m, e, dstNext);
      BytesKept(mem, mid, to, e, tmpOutBuffer, to);
      UntouchedWider(mem, mid, to, e, tmpOutBuffer, bufferEnd);
      UntouchedTwice(was, mid, mem, tmpOutBuffer, bufferEnd);
      ExtendPrefix(to, m, h, k, WINDOW, e);
    }

    /** The last n bytes of the dictionary move to the start of the decoder's buffer. */
    method SaveDict(n: nat, ghost h: seq<byte>, ghost k: nat, ghost bufferEnd: nat)
      requires Placed() && SameEnd(DictBytes(), h, WINDOW) && n <= dictSize && n <= maxBufferSize && bufferEnd == tmpOutBuffer + maxBufferSize
      requires k <= WINDOW && (k <= n || n == dictSize) && (dict == tmpOutBuffer ==> 2 * n <= dictSize)
      modifies this`mem, this`dict, this`dictSize
      ensures Placed() && dict == tmpOutBuffer && dictSize == n && SameEnd(DictBytes(), h, k)
      ensures Untouched(mem, old(mem), tmpOutBuffer, bufferEnd)
    {
      hide SameEnd, Last, Copied, Bytes, Untouched;
      ghost var was, a, dictEnd := mem, DictBytes(), dict + dictSize;
      SameEndFewer(a, h, WINDOW, k);
      SameEndCut(a, h, n, k);
      var from := dict + dictSize - n;
      ghost var e := tmpOutBuffer + n;
      BytesInside(mem, dict, dictEnd, from, dictEnd);
      Move(tmpOutBuffer, from, n, e, dictEnd);
      UntouchedWider(mem, was, tmpOutBuffer, e, tmpOutBuffer, bufferEnd);
      dict, dictSize := tmpOutBuffer, n;
    }
  }

  /** The last n bytes of `front` are the n bytes of a that end k bytes before its end. */
  ghost predicate EndsBefore(front: seq<byte>, a: seq<byte>, k: nat, n: nat) {
    n <= |front| && k + n <= |a| && front[|front| - n..] == a[|a| - k - n..|a| - k]
  }

  lemma Moved(was: seq<byte>, a: nat, b: nat, from: nat, fromEnd: nat, m: seq<byte>, lo: nat, hi: nat, to: nat, k: nat, n: nat)
    requires a <= from <= fromEnd <= b <= |was| && lo <= to <= hi <= |m| && fromEnd == b - k && from == fromEnd - n && to == hi - n
    requires Bytes(m, to, hi) == Bytes(was, from, fromEnd)
    ensures EndsBefore(Bytes(m, lo, hi), Bytes(was, a, b), k, n)
  {
    BytesInside(was, a, b, from, fromEnd);
    BytesInside(m, lo, hi, to, hi);
    hide Bytes;
    assert from - a == b - a - k - n && fromEnd - a == b - a - k && to - lo == hi - lo - n;
  }

  lemma BytesInside(m: seq<byte>, lo: nat, hi: nat, a: nat, b: nat)
    requires lo <= a <= b <= hi <= |m|
    ensures Bytes(m, lo, hi)[a - lo..b - lo] == Bytes(m, a, b)
    ensures b == hi ==> Bytes(m, lo, hi)[a - lo..] == Bytes(m, a, b)
  {
    SliceOfSlice(m, lo, hi, a - lo, b - lo, a, b);
  }

  /** The dictionary reaches back far enough before the block for the copy. */
  lemma EnoughBefore(a: seq<byte>, h0: seq<byte>, block: seq<byte>, size: nat, copy: nat)
    requires SameEnd(a, h0 + block, Needed(size, |block|)) && |block| <= size
    requires copy <= (if size > WINDOW then 0 else WINDOW - size) && copy <= |h0|
    ensures copy > 0 ==> |a| >= copy + |block|
  {
  }
}
