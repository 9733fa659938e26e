/** A whole frame through the decoder: input and output in pieces of any size, call after call. */
module FrameStream {
  import opened Lz4Block
  import opened FrameFormat
  import opened FrameDict
  import opened FrameDecoder

  /** A call: how much input is offered, where output may go, and what the caller does to the rest
      of the memory before the call. */
  datatype Turn = Turn(size: nat, dstStart: nat, dstEnd: nat, skipChecksums: bool, elsewhere: seq<byte>)

  /** The destination is apart from where the decoder's buffer is. */
  ghost predicate Fits(t: Turn, newBuffer: nat, memory: nat) {
    && t.dstStart <= t.dstEnd <= memory && (t.dstStart == 0 ==> t.dstEnd == 0) && |t.elsewhere| == memory
    && (t.dstEnd < newBuffer || newBuffer + MAX_BUFFER < t.dstStart)
  }

  /** Some input, while there is any, and some room for output. */
  ghost predicate Useful(t: Turn) {
    t.size > 0 && t.dstStart < t.dstEnd
  }

  /** The memory m between lo and hi, and that of the caller around it. */
  function Around(m: seq<byte>, lo: nat, hi: nat, elsewhere: seq<byte>): (r: seq<byte>)
    requires lo <= hi <= |m| == |elsewhere|
    ensures |r| == |m|
  {
    elsewhere[..lo] + m[lo..hi] + elsewhere[hi..]
  }

  lemma AroundKeeps(m: seq<byte>, lo: nat, hi: nat, elsewhere: seq<byte>, end: nat)
    requires lo <= end <= hi <= |m| == |elsewhere|
    ensures Bytes(Around(m, lo, hi, elsewhere), lo, end) == Bytes(m, lo, end)
  {
    var r := Around(m, lo, hi, elsewhere);
    assert r[lo..hi] == m[lo..hi];
    assert r[lo..end] == r[lo..hi][..end - lo] && m[lo..end] == m[lo..hi][..end - lo];
  }

  lemma AroundElsewhere(m: seq<byte>, lo: nat, hi: nat, elsewhere: seq<byte>, a: nat, b: nat)
    requires lo <= hi <= |m| == |elsewhere| && a <= b <= |m| && (b <= lo || hi <= a)
    ensures Around(m, lo, hi, elsewhere)[a..b] == elsewhere[a..b]
  {
    var r := Around(m, lo, hi, elsewhere);
    forall i | a <= i < b ensures r[i] == elsewhere[i] {
    }
  }

  /** The decoder after some of the turns. */
  ghost predicate Running(d: Decoder, x: seq<byte>, content: seq<byte>, end: nat, newBuffer: nat, memory: nat)
    reads d, d.history
  {
    && d.x == x && d.content == content && d.end == end <= |x| && |d.history.mem| == memory
    && (d.history.maxBufferSize == 0 || d.history.tmpOutBuffer == newBuffer)
  }

  /** One turn. */
  method OneTurn(d: Decoder, t: Turn, x: seq<byte>, at: nat, newBuffer: nat, ghost content: seq<byte>, ghost end: nat)
      returns (part: seq<byte>, consumed: nat, done: bool)
    requires Running(d, x, content, end, newBuffer, |d.history.mem|) && Fits(t, newBuffer, |d.history.mem|)
    requires d.StageOk() && d.stage != GetSuffix && d.Anchored() && at == d.n <= |x| && 0 < newBuffer && newBuffer + MAX_BUFFER <= |d.history.mem|
    modifies d, d.history
    ensures Running(d, x, content, end, newBuffer, |old(d.history.mem)|)
    ensures d.h == old(d.h) + part <= content && d.n == at + consumed <= |x|
    ensures if done then d.stage == GetFrameHeader && d.Leftover() && d.h == content && d.n == end
            else d.StageOk() && d.stage != GetSuffix && d.Anchored()
    ensures Useful(t) && !done ==> consumed + |part| > 0
  {
    hide Decoder.StageOk, Decoder.RoomNow, Decoder.Leftover;
    var bufferEnd := newBuffer + MAX_BUFFER;
    d.OwnBuffer();
    if d.history.maxBufferSize > 0 {
      AroundKeeps(d.history.mem, newBuffer, bufferEnd, t.elsewhere, newBuffer + d.history.maxBufferSize);
    }
    d.CallerWrites(Around(d.history.mem, newBuffer, bufferEnd, t.elsewhere));
    var size := Min(t.size, |x| - at);
    var c := Call(x[at..at + size], at, t.dstStart, t.dstEnd, t.dstStart, t.dstEnd, newBuffer);
    d.NextCall(c);
    var r, dstPtr;
    r, consumed, dstPtr := d.Decompress(c, t.skipChecksums, false);
    part := d.history.mem[t.dstStart..dstPtr];
    done := r.n == 0;
    assert done ==> d.Leftover() by { hide *; }
  }

  /** LZ4F_decompress in a loop: for every well-formed frame, however the input is cut and wherever
      the output goes, what comes out is a beginning of the content; when the frame is done, it is
      the content, and the input is consumed up to the frame's end. Useful calls finish the frame. */
  method DecodeInTurns(d: Decoder, turns: seq<Turn>, x: seq<byte>, newBuffer: nat, ghost content: seq<byte>, ghost end: nat)
      returns (out: seq<byte>, at: nat, done: bool)
    requires d.stage == GetFrameHeader && d.Leftover() && Frame(d.codec, x) == Some((content, end))
    requires 0 < newBuffer && newBuffer + MAX_BUFFER <= |d.history.mem| && (d.history.maxBufferSize == 0 || d.history.tmpOutBuffer == newBuffer)
    requires forall t :: t in turns ==> Fits(t, newBuffer, |d.history.mem|)
    modifies d, d.history
    ensures out <= content && at <= |x| && (done ==> out == content && at == end && d.stage == GetFrameHeader && d.Leftover())
    ensures (forall t :: t in turns ==> Useful(t)) && |turns| > |x| + |content| ==> done
    ensures d.history.maxBufferSize == 0 || d.history.tmpOutBuffer == newBuffer
  {
    hide Decoder.StageOk, Decoder.Leftover, Decoder.Anchored, Frame, Useful, Fits;
    ghost var memory := |d.history.mem|;
    StartsAnchored(d);
    d.Start(x, content, end);
    out, at, done := [], 0, false;
    var i := 0;
    while i < |turns| && !done
      invariant i <= |turns| && Running(d, x, content, end, newBuffer, memory)
      invariant out == d.h <= content && at == d.n <= |x|
      invariant if done then d.stage == GetFrameHeader && d.Leftover() && d.h == content && d.n == end
                else d.StageOk() && d.stage != GetSuffix && d.Anchored()
      invariant (forall t :: t in turns ==> Useful(t)) && !done ==> at + |out| >= i
    {
      assert turns[i] in turns;
      var part, consumed;
      part, consumed, done := OneTurn(d, turns[i], x, at, newBuffer, content, end);
      out, at, i := out + part, at + consumed, i + 1;
    }
  }

  lemma StartsAnchored(d: Decoder)
    requires d.Leftover()
    ensures d.Anchored()
  {
  }

  // ------------------------------------------------- one stable destination

  /** A call: how much input is offered, and how much of the destination. */
  datatype Piece = Piece(size: nat, room: nat)

  /** What is delivered so far stands in the destination. */
  lemma Standing(d: Decoder, c: Call, dstPtr: nat)
    requires d.RoomNow(c, dstPtr) && |d.h| == dstPtr - c.from
    ensures c.from <= dstPtr <= |d.history.mem| && d.history.mem[c.from..dstPtr] == d.h
  {
  }

  /** One call on a destination that the caller keeps as it is. */
  method OnePiece(d: Decoder, p: Piece, x: seq<byte>, at: nat, dstPtr: nat, ghost last: Call, newBuffer: nat, from: nat, limit: nat, ghost content: seq<byte>, ghost end: nat)
      returns (consumed: nat, dstPtr': nat, done: bool, ghost c: Call)
    requires Running(d, x, content, end, newBuffer, |d.history.mem|) && d.StageOk() && d.stage != GetSuffix && at == d.n <= |x|
    requires d.RoomNow(last, dstPtr) && last.from == from && last.limit == limit && last.newBuffer == newBuffer
    requires 0 < from <= dstPtr <= limit && |d.h| == dstPtr - from
    modifies d, d.history
    ensures Running(d, x, content, end, newBuffer, |old(d.history.mem)|) && d.n == at + consumed <= |x| && dstPtr <= dstPtr' <= limit
    ensures d.RoomNow(c, dstPtr') && c.from == from && c.limit == limit && c.newBuffer == newBuffer && |d.h| == dstPtr' - from && d.h <= content
    ensures if done then d.stage == GetFrameHeader && d.Leftover() && d.h == content && d.n == end
            else d.StageOk() && d.stage != GetSuffix
    ensures p.size > 0 && p.room > 0 && dstPtr < limit && !done ==> consumed + (dstPtr' - dstPtr) > 0
  {
    hide Decoder.StageOk, Decoder.RoomNow, Decoder.Leftover;
    var size := Min(p.size, |x| - at);
    var call := Call(x[at..at + size], at, dstPtr, Min(dstPtr + p.room, limit), from, limit, newBuffer);
    c := call;
    d.NextStable(last, dstPtr, call);
    var r;
    r, consumed, dstPtr' := d.Decompress(call, false, true);
    done := r.n == 0;
    assert done ==> d.Leftover() by { hide *; }
  }

  /** LZ4F_decompress with stableDst: one destination, filled call after call, of which nothing is ever
      copied aside. What stands in it is always a beginning of the content, and all of it when the frame
      is done; if there is more room than content, useful calls finish it. */
  method DecodeInPlace(d: Decoder, pieces: seq<Piece>, x: seq<byte>, newBuffer: nat, from: nat, limit: nat, ghost content: seq<byte>, ghost end: nat)
      returns (dstPtr: nat, at: nat, done: bool)
    requires d.stage == GetFrameHeader && d.Leftover() && Frame(d.codec, x) == Some((content, end))
    requires 0 < newBuffer && newBuffer + MAX_BUFFER <= |d.history.mem| && (d.history.maxBufferSize == 0 || d.history.tmpOutBuffer == newBuffer)
    requires 0 < from <= limit <= |d.history.mem| && (limit < newBuffer || newBuffer + MAX_BUFFER < from)
    modifies d, d.history
    ensures from <= dstPtr <= limit <= |d.history.mem| && d.history.mem[from..dstPtr] <= content && at <= |x|
    ensures done ==> d.history.mem[from..dstPtr] == content && at == end && d.stage == GetFrameHeader && d.Leftover()
    ensures (forall p :: p in pieces ==> p.size > 0 && p.room > 0) && |pieces| > |x| + |content| && limit - from > |content| ==> done
  {
    hide Decoder.StageOk, Decoder.Leftover, Decoder.Anchored, Decoder.RoomNow, Frame;
    StartsAnchored(d);
    d.OwnBuffer();
    d.Start(x, content, end);
    dstPtr, at, done := from, 0, false;
    var i := 0;
    ghost var c := Call([], 0, from, limit, from, limit, newBuffer);
    d.NextCall(c);
    while i < |pieces| && !done
      invariant i <= |pieces| && Running(d, x, content, end, newBuffer, |old(d.history.mem)|) && at == d.n <= |x|
      invariant d.RoomNow(c, dstPtr) && c.from == from && c.limit == limit && c.newBuffer == newBuffer
      invariant from <= dstPtr <= limit && |d.h| == dstPtr - from && d.h <= content
      invariant if done then d.stage == GetFrameHeader && d.Leftover() && d.h == content && d.n == end
                else d.StageOk() && d.stage != GetSuffix
      invariant (forall p :: p in pieces ==> p.size > 0 && p.room > 0) && limit - from > |content| && !done ==> at + (dstPtr - from) >= i
    {
      assert pieces[i] in pieces;
      var consumed, next;
      consumed, next, done, c := OnePiece(d, pieces[i], x, at, dstPtr, c, newBuffer, from, limit, content, end);
      dstPtr, at, i := next, at + consumed, i + 1;
    }
    Standing(d, c, dstPtr);
  }
}
