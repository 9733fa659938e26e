/** A stream of data through the frame compressor and the frame decoder, in pieces on either side. */
module FrameRoundTrip {
  import opened Lz4Block
  import opened FrameFormat
  import opened FrameDict
  import opened FrameEncoding
  import C = FrameCompressor
  import D = FrameDecoder
  import S = FrameStream

  /** Input at some address, in a memory that the caller has changed as it wants; or a flush. */
  datatype Piece = Feed(src: nat, size: nat, elsewhere: seq<byte>) | FlushNow

  ghost predicate Fits(t: Piece, newBuffer: nat, memory: nat) {
    t.Feed? ==>
      && 0 < t.src && t.src + t.size <= memory == |t.elsewhere|
      && (t.src + t.size < newBuffer || newBuffer + D.MAX_BUFFER < t.src)
  }

  function Input(t: Piece): seq<byte> {
    if t.Feed? && t.src + t.size <= |t.elsewhere| then t.elsewhere[t.src..t.src + t.size] else []
  }

  /** All input, one piece after the other. */
  function Inputs(pieces: seq<Piece>): seq<byte> {
    if pieces == [] then [] else Inputs(pieces[..|pieces| - 1]) + Input(pieces[|pieces| - 1])
  }

  /** The compressor's buffer is where it was allocated, or there is none. */
  ghost predicate Running(c: C.Compressor, newBuffer: nat, memory: nat)
    reads c
  {
    && |c.mem| == memory && newBuffer + D.MAX_BUFFER <= memory && c.maxBufferSize <= D.MAX_BUFFER
    && ((c.tmpBuff == 0 && c.maxBufferSize == 0) || c.tmpBuff == newBuffer)
  }

  /** Before a call, the caller changes its memory. */
  method OtherMemory(c: C.Compressor, t: Piece, newBuffer: nat)
    requires c.Streaming() && c.InTmp() && Running(c, newBuffer, |c.mem|) && t.Feed? && Fits(t, newBuffer, |c.mem|)
    modifies c`mem
    ensures c.Streaming() && |c.mem| == |old(c.mem)| && c.mem[t.src..t.src + t.size] == Input(t)
  {
    hide C.Compressor.Streaming, C.Compressor.Mid, C.Compressor.Sums, C.Compressor.Fits, S.Around, Bytes;
    c.StreamingMid();
    ghost var lo, bufferEnd, dictEnd := c.tmpBuff, c.tmpBuff + c.maxBufferSize, c.dictionary + c.dictSize;
    var m := S.Around(c.mem, newBuffer, newBuffer + D.MAX_BUFFER, t.elsewhere);
    if c.tmpBuff == newBuffer {
      S.AroundKeeps(c.mem, newBuffer, newBuffer + D.MAX_BUFFER, t.elsewhere, bufferEnd);
    } else {
      NoBytes(c.mem, 0, m, 0);
    }
    if c.prefs.linked {
      DictInBuffer(c);
      D.SameInside(m, c.mem, lo, bufferEnd, c.dictionary, dictEnd);
    }
    S.AroundElsewhere(c.mem, newBuffer, newBuffer + D.MAX_BUFFER, t.elsewhere, t.src, t.src + t.size);
    c.CallerWrites(m);
  }

  lemma DictInBuffer(c: C.Compressor)
    requires c.Streaming() && c.InTmp() && c.prefs.linked
    ensures c.dictionary + c.dictSize <= |c.mem| && c.tmpIn <= c.tmpBuff + c.maxBufferSize
    ensures c.dictSize == 0 || (c.tmpBuff <= c.dictionary && c.dictionary + c.dictSize <= c.tmpBuff + c.maxBufferSize)
  {
  }

  /** One piece goes in. */
  method OnePiece(c: C.Compressor, t: Piece, newBuffer: nat) returns (out: seq<byte>)
    requires c.Streaming() && c.InTmp() && Running(c, newBuffer, |c.mem|) && Fits(t, newBuffer, |c.mem|)
    modifies c
    ensures c.Streaming() && c.InTmp() && Running(c, newBuffer, |old(c.mem)|)
    ensures c.input == old(c.input) + Input(t) && c.sent == old(c.sent) + out && c.prefs == old(c.prefs)
  {
    hide C.Compressor.Streaming, C.Compressor.InTmp;
    if t.Feed? {
      out := FeedPiece(c, t, newBuffer);
    } else {
      c.StreamingMid();
      var r := c.Flush(c.tmpInSize + BLOCK_HEADER_SIZE + CHECKSUM_SIZE);
      out := r.out;
      assert c.input == c.input + [];
    }
  }

  method FeedPiece(c: C.Compressor, t: Piece, newBuffer: nat) returns (out: seq<byte>)
    requires c.Streaming() && c.InTmp() && Running(c, newBuffer, |c.mem|) && t.Feed? && Fits(t, newBuffer, |c.mem|)
    modifies c
    ensures c.Streaming() && c.InTmp() && Running(c, newBuffer, |old(c.mem)|)
    ensures c.input == old(c.input) + Input(t) && c.sent == old(c.sent) + out && c.prefs == old(c.prefs)
  {
    hide C.Compressor.Streaming, C.NoneShrinks, CompressBound, UpdateSize, Countable;
    c.StreamingMid();
    OtherMemory(c, t, newBuffer);
    c.StreamingMid();
    ghost var srcEnd := t.src + t.size;
    var r := c.Update(t.src, t.size, CompressBound(t.size, c.prefs, c.tmpInSize), false, srcEnd);
    out := r.out;
  }

  method Pieces(c: C.Compressor, pieces: seq<Piece>, newBuffer: nat) returns (out: seq<byte>)
    requires c.Streaming() && c.InTmp() && Running(c, newBuffer, |c.mem|) && c.input == [] && c.sent == []
    requires forall t :: t in pieces ==> Fits(t, newBuffer, |c.mem|)
    modifies c
    ensures c.Streaming() && c.prefs == old(c.prefs) && c.input == Inputs(pieces) && out == c.sent
  {
    hide C.Compressor.Streaming, C.Compressor.InTmp, Fits, Input;
    ghost var memory := |c.mem|;
    out := [];
    var i := 0;
    while i < |pieces|
      invariant i <= |pieces| && c.Streaming() && c.InTmp() && Running(c, newBuffer, memory) && c.prefs == old(c.prefs)
      invariant c.input == Inputs(pieces[..i]) && out == c.sent
    {
      assert pieces[i] in pieces;
      var part := OnePiece(c, pieces[i], newBuffer);
      ghost var next := pieces[..i + 1];
      assert next[..i] == pieces[..i] && next[i] == pieces[i];
      out := out + part;
      i := i + 1;
    }
    assert pieces[..i] == pieces;
  }

  /** LZ4F_compressBegin, LZ4F_compressUpdate and LZ4F_flush in any order, and LZ4F_compressEnd: for any
      pieces and preferences, what comes out is one frame, and its content is all the input. */
  method CompressInPieces(c: C.Compressor, preferences: Preferences, pieces: seq<Piece>, newBuffer: nat) returns (out: seq<byte>)
    requires ValidPreferences(preferences) && C.Sound(c.codec, c.compress) && Running(c, newBuffer, |c.mem|)
    requires forall t :: t in pieces ==> Fits(t, newBuffer, |c.mem|)
    requires |Inputs(pieces)| < U64_RANGE && (preferences.contentSize == 0 || preferences.contentSize == |Inputs(pieces)|)
    modifies c
    ensures Frame(c.codec, out) == Some((Inputs(pieces), |out|))
    ensures ValidPreferences(c.prefs) && C.PackedFrame(c.compress, c.prefs, out, Inputs(pieces))
  {
    hide C.PackedFrame, C.Compressor.Streaming, C.Compressor.InTmp, C.Sound, Header, Frame, Fits, Inputs, CompressBound;
    var r := c.Begin(preferences, HEADER_SIZE_MAX, newBuffer);
    var blocks := Pieces(c, pieces, newBuffer);
    c.StreamingMid();
    var tail := c.End(CompressBound(0, c.prefs, c.tmpInSize));
    out := r.out + blocks + tail.out;
  }

  /** What goes into the compressor in pieces comes out of the decoder, in calls of any sizes. */
  method RoundTrip(c: C.Compressor, preferences: Preferences, pieces: seq<Piece>, buffer: nat, d: D.Decoder, turns: seq<S.Turn>, decoderBuffer: nat)
      returns (frame: seq<byte>, out: seq<byte>, done: bool)
    requires ValidPreferences(preferences) && C.Sound(c.codec, c.compress) && Running(c, buffer, |c.mem|) && d.codec == c.codec
    requires forall t :: t in pieces ==> Fits(t, buffer, |c.mem|)
    requires |Inputs(pieces)| < U64_RANGE && (preferences.contentSize == 0 || preferences.contentSize == |Inputs(pieces)|)
    requires d.stage == D.GetFrameHeader && d.Leftover() && 0 < decoderBuffer && decoderBuffer + D.MAX_BUFFER <= |d.history.mem|
    requires d.history.maxBufferSize == 0 || d.history.tmpOutBuffer == decoderBuffer
    requires forall t :: t in turns ==> S.Fits(t, decoderBuffer, |d.history.mem|)
    modifies c, d, d.history
    ensures out <= Inputs(pieces) && (done ==> out == Inputs(pieces))
    ensures (forall t :: t in turns ==> S.Useful(t)) && |turns| > |frame| + |Inputs(pieces)| ==> done
  {
    hide Frame;
    frame := CompressInPieces(c, preferences, pieces, buffer);
    var at;
    out, at, done := S.DecodeInTurns(d, turns, frame, decoderBuffer, Inputs(pieces), |frame|);
  }
}
