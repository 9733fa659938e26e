/** LZ4F_decompress: the resumable decoder of LZ4 frames. Input arrives in chunks of any size and
    output leaves in buffers of any size; on a well-formed frame every way of cutting both gives the
    frame's content and ends at the frame's end. */
module FrameDecoder {
  import opened Lz4Block
  import opened Slices
  import opened Lz4Copy
  import opened FrameFormat
  import opened FrameDict

  const U64_RANGE := 0x1_0000_0000_0000_0000
  /** The largest buffer that LZ4F_decompress allocates: a 4 MB block and 128 KB of history. */
  const MAX_BUFFER := 0x42_0000

  datatype Stage =
    | GetFrameHeader | StoreFrameHeader | Init
    | GetBlockHeader | StoreBlockHeader | CopyDirect | GetBlockChecksum
    | GetCBlock | StoreCBlock | FlushOut
    | GetSuffix | StoreSuffix
    | GetSFrameSize | StoreSFrameSize | SkipSkippable

  datatype Failure =
    | FrameTypeUnknown | ReservedFlagSet | HeaderVersionWrong | MaxBlockSizeInvalid | HeaderChecksumInvalid
    | BlockChecksumInvalid | DecompressionFailed | FrameSizeWrong | ContentChecksumInvalid

  predicate OfSkippable(s: Stage) {
    s == GetSFrameSize || s == StoreSFrameSize || s == SkipSkippable
  }

  /** The result of a call or of a step: a hint for the next input size (0 when the frame is done), or an error. */
  datatype Outcome = Hint(n: nat) | Error(e: Failure)

  function Min(a: nat, b: nat): nat { if a < b then a else b }

  predicate IsBlockSize(b: nat) {
    b == 0x1_0000 || b == 0x4_0000 || b == 0x10_0000 || b == 0x40_0000
  }

  /** Buffers that were allocated for blocks of some size, linked or not. */
  ghost predicate BufferFor(tmpIn: nat, buffer: nat) {
    tmpIn >= CHECKSUM_SIZE && IsBlockSize(tmpIn - CHECKSUM_SIZE) && (buffer == tmpIn - CHECKSUM_SIZE || buffer == tmpIn - CHECKSUM_SIZE + 2 * WINDOW)
  }

  /** A buffer that is kept for a new frame goes with an input buffer that is large enough too. */
  lemma BufferServes(tmpIn: nat, buffer: nat, maxBlock: nat, linked: bool)
    requires BufferFor(tmpIn, buffer) && IsBlockSize(maxBlock) && maxBlock + (if linked then 2 * WINDOW else 0) <= buffer
    ensures maxBlock + CHECKSUM_SIZE <= tmpIn
  {
  }

  /** What a call is given: input, which is the bytes of the frame's input from position `at` on, the
      destination buffer, where 0 is NULL, and the address that an allocation would return. The
      destination lies in [from, limit), where the output of earlier and later calls may lie too. */
  datatype Call = Call(src: seq<byte>, at: nat, dstStart: nat, dstEnd: nat, from: nat, limit: nat, newBuffer: nat)

  /** Bytes s hold x from position a on. */
  ghost predicate Has(s: seq<byte>, k: nat, x: seq<byte>, a: nat) {
    k <= |s| && a + k <= |x| && s[..k] == x[a..a + k]
  }

  /** memcpy from the input behind what is held already. */
  function Store(s: seq<byte>, k: nat, src: seq<byte>, pos: nat, m: nat): (r: seq<byte>)
    requires k + m <= |s| && pos + m <= |src|
    ensures |r| == |s|
  {
    s[..k] + src[pos..pos + m] + s[k + m..]
  }

  lemma StoreHas(s: seq<byte>, k: nat, src: seq<byte>, pos: nat, m: nat, x: seq<byte>, a: nat)
    requires Has(s, k, x, a) && k + m <= |s| && pos + m <= |src| && a + k + m <= |x|
    requires src[pos..pos + m] == x[a + k..a + k + m]
    ensures Has(Store(s, k, src, pos, m), k + m, x, a)
  {
    var r := Store(s, k, src, pos, m);
    assert r[..k + m] == s[..k] + src[pos..pos + m];
    assert x[a..a + k + m] == x[a..a + k] + x[a + k..a + k + m];
  }

  class Decoder {
    const codec: Codec
    const history: History
    var stage: Stage
    var info: Info
    var remaining: nat
    var tmpIn: seq<byte>
    var tmpInSize: nat
    var tmpInTarget: nat
    var header: seq<byte>
    var xxh: seq<byte>
    var blockXxh: seq<byte>
    var skipChecksum: bool

    /** The whole input, of which n bytes are consumed; what was delivered; what the frame means. */
    ghost var x: seq<byte>
    ghost var n: nat
    ghost var h: seq<byte>
    ghost var content: seq<byte>
    ghost var end: nat
    /** The current block: where its header is, and the history before it. */
    ghost var p: nat
    ghost var hb: seq<byte>

    // ------------------------------------------------------------ invariants

    ghost predicate At(q: nat, hist: seq<byte>)
      reads this`info, this`x, this`content, this`end
    {
      Blocks(codec, info, x, q, hist) == Some((content, end))
    }

    /** The buffers have been allocated, and are large enough for this frame. */
    ghost predicate Ready()
      reads this`info, this`tmpIn, this`header, history`mem, history`dict, history`dictSize, history`maxBufferSize, history`tmpOutBuffer
    {
      && history.Placed() && WINDOW <= info.maxBlock && |tmpIn| >= info.maxBlock + CHECKSUM_SIZE
      && history.maxBufferSize >= info.maxBlock + (if info.linked then 2 * WINDOW else 0)
      && |header| == HEADER_SIZE_MAX && BufferFor(|tmpIn|, history.maxBufferSize)
    }

    /** The dictionary between blocks. */
    ghost predicate HistoryOk()
      reads this`info, this`h, history
    {
      if info.linked then history.WholeDict(h) else history.dict == 0 && history.dictSize == 0 && history.tmpOut == history.tmpOutBuffer
    }

    /** Content checksum and remaining size, with `decoded` decoded so far. */
    ghost predicate Totals(decoded: seq<byte>)
      reads this`info, this`remaining, this`xxh, this`skipChecksum
    {
      && (if info.contentSize == 0 then remaining == 0 else remaining == (info.contentSize - |decoded|) % U64_RANGE)
      && info.contentSize < U64_RANGE
      && (info.contentChecksum && !skipChecksum ==> xxh == decoded)
    }

    ghost predicate BetweenBlocks(q: nat)
      reads this`info, this`tmpIn, this`header, this`h, this`remaining, this`xxh, this`skipChecksum, this`x, this`content, this`end, this`n, history
    {
      Ready() && HistoryOk() && Totals(h) && At(q, h) && q <= n
    }

    ghost predicate StoringBlockHeader()
      reads this, history
    {
      tmpInSize < BLOCK_HEADER_SIZE && tmpInSize <= n && BetweenBlocks(n - tmpInSize) && Has(tmpIn, tmpInSize, x, n - tmpInSize) && n <= |x|
    }

    /** The block at p, and its data's place in x. */
    ghost predicate InBlock(compressed: bool)
      reads this`info, this`x, this`content, this`end, this`p, this`hb
    {
      && At(p, hb) && BlockAt(info, x, p).Block? && BlockAt(info, x, p).compressed == compressed
    }

    ghost function Data(): seq<byte>
      requires BlockAt(info, x, p).Block?
      reads this`info, this`x, this`p
    {
      BlockAt(info, x, p).data
    }

    /** An uncompressed block of which `copied` bytes are delivered. */
    ghost predicate Copying(copied: nat)
      reads this`info, this`tmpIn, this`header, this`h, this`remaining, this`xxh, this`skipChecksum, this`x, this`content, this`end, this`p, this`hb, this`blockXxh, history
    {
      && Ready() && HistoryOk() && Totals(h) && InBlock(false)
      && copied <= |Data()| && h == hb + Data()[..copied]
      && (info.blockChecksum && !skipChecksum ==> blockXxh == Data()[..copied])
    }

    ghost predicate CopyingDirect()
      reads this`info, this`tmpIn, this`header, this`h, this`remaining, this`xxh, this`skipChecksum, this`x, this`content, this`end, this`n, this`p, this`hb, this`tmpInTarget, this`blockXxh, history
    {
      && p + BLOCK_HEADER_SIZE <= n && Copying(n - (p + BLOCK_HEADER_SIZE)) && tmpInTarget == p + BLOCK_HEADER_SIZE + |Data()| - n
    }

    ghost predicate AwaitingBlockChecksum()
      reads this, history
    {
      && InBlock(false) && Copying(|Data()|) && info.blockChecksum && tmpInSize < CHECKSUM_SIZE
      && n == p + BLOCK_HEADER_SIZE + |Data()| + tmpInSize && Has(header, tmpInSize, x, n - tmpInSize)
    }

    /** A compressed block of which `stored` bytes are stored, checksum included. */
    ghost predicate Compressed(stored: nat)
      reads this`info, this`tmpIn, this`header, this`h, this`remaining, this`xxh, this`skipChecksum, this`x, this`content, this`end, this`n, this`p, this`hb, this`tmpInTarget, history
    {
      && Ready() && HistoryOk() && Totals(h) && InBlock(true) && h == hb
      && n == p + BLOCK_HEADER_SIZE + stored && n + (tmpInTarget - stored) == BlockAt(info, x, p).next && stored <= tmpInTarget && tmpInTarget > 0
    }

    ghost predicate StoringCBlock()
      reads this, history
    {
      Compressed(tmpInSize) && tmpInSize < tmpInTarget && Has(tmpIn, tmpInSize, x, n - tmpInSize)
    }

    /** The decoded block in tmpOut. */
    ghost function Pending(): seq<byte>
      requires history.Placed() && history.tmpOut + history.tmpOutSize <= |history.mem|
      reads history
    {
      Bytes(history.mem, history.tmpOut, history.tmpOut + history.tmpOutSize)
    }

    ghost predicate FlushingOut()
      reads this`info, this`tmpIn, this`header, this`h, this`remaining, this`xxh, this`skipChecksum, this`x, this`content, this`end, this`n, this`hb, history
    {
      && Ready() && history.Flushing(hb, h)
      && (if info.linked then history.FlushDict(hb, h) else history.dict == 0 && history.dictSize == 0 && history.tmpOut == history.tmpOutBuffer)
      && Totals(hb + Pending()) && At(n, hb + Pending())
    }

    ghost predicate BeforeSuffix()
      reads this`info, this`tmpIn, this`header, this`h, this`remaining, this`xxh, this`skipChecksum, this`x, this`content, this`end, this`n, history
    {
      Ready() && h == content && Totals(h) && SuffixAt(info, x, n, h) == Some(end) && n <= |x|
    }

    ghost predicate StoringSuffix()
      reads this, history
    {
      && Ready() && h == content && Totals(h) && info.contentChecksum && tmpInSize < CHECKSUM_SIZE && tmpInSize <= n
      && SuffixAt(info, x, n - tmpInSize, h) == Some(end) && Has(tmpIn, tmpInSize, x, n - tmpInSize)
    }

    /** What of an earlier frame's buffers can be used again fits together. */
    ghost predicate Buffers()
      reads this`header, this`tmpIn, history`mem, history`dict, history`dictSize, history`maxBufferSize, history`tmpOutBuffer
    {
      && |header| == HEADER_SIZE_MAX && history.dict == 0 && history.dictSize == 0
      && (history.maxBufferSize == 0 ||
           (0 < history.tmpOutBuffer && history.tmpOutBuffer + history.maxBufferSize <= |history.mem| && BufferFor(|tmpIn|, history.maxBufferSize)))
    }

    ghost predicate Leftover()
      reads this`header, this`remaining, this`tmpIn, history`mem, history`dict, history`dictSize, history`maxBufferSize, history`tmpOutBuffer
    {
      Buffers() && remaining == 0
    }

    /** What the frame x means. */
    ghost predicate Opened()
      reads this`x, this`content, this`end
    {
      Frame(codec, x) == Some((content, end))
    }

    ghost predicate AtStart()
      reads this, history
    {
      Leftover() && n == 0 && h == [] && Opened()
    }

    ghost predicate StoringHeader()
      reads this, history
    {
      && Leftover() && h == [] && Opened() && n == tmpInSize && n <= |x| && tmpInSize < tmpInTarget
      && Has(header, tmpInSize, x, 0)
      && (tmpInTarget == HEADER_SIZE_MIN || (HEADER_SIZE_MIN <= n && tmpInTarget == HeaderSize(x[4]) && !IsSkippable(x)))
    }

    ghost predicate HeaderRead()
      reads this, history
    {
      Buffers() && HeaderIs(n) && n <= |x|
    }

    /** The header is decoded; the blocks start at q. */
    ghost predicate HeaderIs(q: nat)
      reads this`info, this`x, this`content, this`end, this`h, this`remaining
    {
      h == [] && At(q, []) && info.contentSize < U64_RANGE && remaining == info.contentSize && IsBlockSize(info.maxBlock)
    }

    /** A skippable frame, its magic number read. */
    ghost predicate Skipping()
      reads this`header, this`remaining, this`tmpIn, this`h, this`x, this`content, this`end, history`mem, history`dict, history`dictSize, history`maxBufferSize, history`tmpOutBuffer
    {
      Leftover() && h == [] && IsSkippable(x) && Skipped(x) == Some((content, end))
    }

    /** Of a skippable frame's size the bytes up to tmpInSize are stored. */
    ghost predicate StoringSkipSize()
      reads this`header, this`remaining, this`tmpIn, this`h, this`x, this`content, this`end, this`n, this`tmpInSize, this`tmpInTarget, history`mem, history`dict, history`dictSize, history`maxBufferSize, history`tmpOutBuffer
    {
      && Skipping() && 4 <= tmpInSize < SKIPPABLE_HEADER && tmpInTarget == SKIPPABLE_HEADER && n == tmpInSize <= |x|
      && header[4..tmpInSize] == x[4..tmpInSize]
    }

    ghost predicate SkippingRest()
      reads this`header, this`remaining, this`tmpIn, this`h, this`x, this`content, this`end, this`n, this`tmpInTarget, history`mem, history`dict, history`dictSize, history`maxBufferSize, history`tmpOutBuffer
    {
      Skipping() && SKIPPABLE_HEADER <= n && n + tmpInTarget == end
    }

    /** The stages of a skippable frame. */
    ghost predicate SkipStage()
      reads this`stage, this`header, this`remaining, this`tmpIn, this`h, this`x, this`content, this`end, this`n, this`tmpInSize, this`tmpInTarget, history`mem, history`dict, history`dictSize, history`maxBufferSize, history`tmpOutBuffer
    {
      if stage == GetSFrameSize then Skipping() && n == 4
      else if stage == StoreSFrameSize then StoringSkipSize()
      else stage == SkipSkippable && SkippingRest()
    }

    ghost predicate StageOk()
      reads this, history
    {
      match stage
      case GetFrameHeader => AtStart()
      case StoreFrameHeader => StoringHeader()
      case Init => HeaderRead()
      case GetBlockHeader => BetweenBlocks(n)
      case StoreBlockHeader => StoringBlockHeader()
      case CopyDirect => CopyingDirect()
      case GetBlockChecksum => AwaitingBlockChecksum()
      case GetCBlock => Compressed(0)
      case StoreCBlock => StoringCBlock()
      case FlushOut => FlushingOut()
      case GetSuffix => BeforeSuffix()
      case StoreSuffix => StoringSuffix()
      case GetSFrameSize => SkipStage()
      case StoreSFrameSize => SkipStage()
      case SkipSkippable => SkipStage()
    }

    /** The input from pos on is what follows in x. */
    ghost predicate Fed(c: Call, pos: nat)
      reads this`n, this`x
    {
      pos <= |c.src| && n == c.at + pos && c.at + |c.src| <= |x| && c.src == x[c.at..c.at + |c.src|]
    }

    /** As many bytes were added to the output as were written to the destination. */
    ghost predicate Grown(before: seq<byte>, dstPtr: nat, dstPtr': nat)
      reads this`h
    {
      before <= h && dstPtr' - dstPtr == |h| - |before|
    }

    /** The destination: apart from the decoder's buffers, what is written so far is the end of the
        output, and the rest does not overlap the dictionary. */
    ghost predicate Room(c: Call, dstPtr: nat)
      reads this`h, history`mem, history`dict, history`dictSize, history`maxBufferSize, history`tmpOutBuffer
    {
      Place(c, dstPtr) && history.Clear(dstPtr, c.limit)
    }

    ghost predicate Place(c: Call, dstPtr: nat)
      reads this`h, history`mem, history`maxBufferSize, history`tmpOutBuffer
    {
      && c.from <= c.dstStart <= dstPtr <= c.dstEnd <= c.limit <= |history.mem| && (c.dstStart == 0 ==> c.dstEnd == 0)
      && (history.maxBufferSize == 0 || history.Outside(c.from, c.limit)) && history.Delivered(c.from, dstPtr, h)
      && 0 < c.newBuffer && c.newBuffer + MAX_BUFFER <= |history.mem|
      && (c.limit < c.newBuffer || c.newBuffer + MAX_BUFFER < c.from)
    }

    /** Behind the last block there is no more need for a dictionary. */
    ghost predicate RoomNow(c: Call, dstPtr: nat)
      reads this`h, this`stage, history`mem, history`dict, history`dictSize, history`maxBufferSize, history`tmpOutBuffer
    {
      Place(c, dstPtr) && (stage == GetSuffix || stage == StoreSuffix || history.Clear(dstPtr, c.limit))
    }

    constructor (codec: Codec, mem: seq<byte>)
      ensures this.codec == codec && fresh(history) && stage == GetFrameHeader && Leftover() && history.mem == mem && !skipChecksum
    {
      this.codec := codec;
      history := new History(mem);
      stage, info, remaining, tmpIn, tmpInSize, tmpInTarget := GetFrameHeader, Info(false, false, false, 0, 0, 0), 0, [], 0, 0;
      header, xxh, blockXxh, skipChecksum := seq(HEADER_SIZE_MAX, _ => 0), [], [], false;
    }

    // ---------------------------------------------------------- frame header

    /** The header of the frame x, as seen in its first bytes. */
    lemma HeaderSeen(s: seq<byte>)
      requires Opened() && HEADER_SIZE_MIN <= |s| <= |x| && s == x[..|s|] && !IsSkippable(x)
      ensures ReadLE32(s, 0) == MAGIC && Supported(s[4], s[5]) && s[4] == x[4] && HasHeader(x)
      ensures |s| >= HeaderSize(s[4]) ==>
        HeaderChecksum(s[4..HeaderSize(s[4]) - 1]) == s[HeaderSize(s[4]) - 1] as nat && InfoOf(s) == InfoOf(x)
      ensures Blocks(codec, InfoOf(x), x, HeaderSize(x[4]), []) == Some((content, end))
    {
      hide Blocks, Checksum;
      assert s[4] == x[4] && s[5] == x[5];
      ReadSame(s, 0, x, 0);
      var hs := HeaderSize(x[4]);
      if |s| >= hs {
        assert s[4..hs - 1] == x[4..hs - 1];
        if Flag(x[4], 8) {
          ReadSame(s, 6, x, 6);
          ReadSame(s, 10, x, 10);
        }
        if Flag(x[4], 1) {
          ReadSame(s, hs - 5, x, hs - 5);
        }
      }
    }

    lemma SkippableSeen(s: seq<byte>)
      requires Opened() && HEADER_SIZE_MIN <= |s| <= |x| && s == x[..|s|]
      ensures IsSkippable(s) <==> IsSkippable(x)
      ensures IsSkippable(x) ==> Skipped(x) == Some((content, end)) && s[4..HEADER_SIZE_MIN] == x[4..HEADER_SIZE_MIN]
    {
      hide Blocks, Checksum;
      ReadSame(s, 0, x, 0);
      if IsSkippable(x) {
        assert s[4..HEADER_SIZE_MIN] == x[4..HEADER_SIZE_MIN];
      }
    }

    lemma ContentSizeFits(s: seq<byte>)
      requires |s| >= HEADER_SIZE_MIN && Supported(s[4], s[5]) && |s| >= HeaderSize(s[4])
      ensures InfoOf(s).contentSize < U64_RANGE && IsBlockSize(InfoOf(s).maxBlock)
    {
    }

    // ---------------------------------------------------------- input, output

    /** m more bytes of the input are consumed. */
    lemma Take(c: Call, pos: nat, m: nat)
      requires Fed(c, pos) && pos + m <= |c.src|
      ensures n + m <= |x| && c.src[pos..pos + m] == x[n..n + m]
    {
      SliceOfSlice(x, c.at, c.at + |c.src|, pos, pos + m, n, n + m);
    }

    /** What the four bytes of a block header say. */
    lemma HeaderSays(q: nat, hist: seq<byte>, v: nat)
      requires At(q, hist) && q + BLOCK_HEADER_SIZE <= |x| && v == ReadLE32(x, q)
      ensures v == 0 ==> hist == content && SuffixAt(info, x, q + BLOCK_HEADER_SIZE, hist) == Some(end)
      ensures v != 0 ==> BlockAt(info, x, q).Block? && BlockIs(q, v % UNCOMPRESSED_FLAG, v < UNCOMPRESSED_FLAG)
    {
      hide ReadLE32, Checksum, SuffixAt;
    }

    ghost predicate BlockIs(q: nat, size: nat, compressed: bool)
      reads this`info, this`x
    {
      var b := BlockAt(info, x, q);
      && b.Block? && b.compressed == compressed && |b.data| == size <= info.maxBlock
      && b.next == q + BLOCK_HEADER_SIZE + size + (if info.blockChecksum then CHECKSUM_SIZE else 0) <= |x|
    }

    /** The block header at q, read from a place that holds it. */
    method DecodeBlockHeader(blockHeader: nat, ghost q: nat, c: Call, pos: nat, dstPtr: nat) returns (go: bool, r: Outcome)
      requires BetweenBlocks(q) && n == q + BLOCK_HEADER_SIZE && n <= |x| && blockHeader == ReadLE32(x, q)
      modifies this`stage, this`tmpInTarget, this`tmpInSize, this`blockXxh, this`p, this`hb
      ensures StageOk() && r.Hint? && (!go ==> r.n > 0 && (dstPtr == c.dstEnd || pos == |c.src|) && stage == GetCBlock)
      ensures stage == GetSuffix || stage == CopyDirect || stage == GetCBlock
    {
      hide Blocks, BlockAt, SuffixAt, ReadLE32, Checksum, Last, Ready, HistoryOk, Totals, At;
      HeaderSays(q, h, blockHeader);
      go, r := true, Hint(1);
      var nextCBlockSize := blockHeader % UNCOMPRESSED_FLAG;
      var crcSize := if info.blockChecksum then CHECKSUM_SIZE else 0;
      if blockHeader == 0 {
        stage := GetSuffix;
        return;
      }
      if nextCBlockSize > info.maxBlock {
        return false, Error(MaxBlockSizeInvalid);
      }
      if blockHeader >= UNCOMPRESSED_FLAG {
        EnterRaw(nextCBlockSize, q);
        return;
      }
      EnterCompressed(nextCBlockSize, crcSize, q);
      if dstPtr == c.dstEnd || pos == |c.src| {
        go, r := false, Hint(BLOCK_HEADER_SIZE + nextCBlockSize + crcSize);
      }
    }

    /** On to the data of an uncompressed block. */
    method EnterRaw(size: nat, ghost q: nat)
      requires BetweenBlocks(q) && BlockIs(q, size, false) && n == q + BLOCK_HEADER_SIZE
      modifies this`stage, this`tmpInTarget, this`blockXxh, this`p, this`hb
      ensures stage == CopyDirect && CopyingDirect()
    {
      hide Blocks, BlockAt, ReadLE32, Checksum, Ready, HistoryOk, Totals, At, CopyingDirect;
      if info.blockChecksum { blockXxh := []; }
      p, hb, tmpInTarget, stage := q, h, size, CopyDirect;
      NoneCopied(size);
    }

    lemma NoneCopied(size: nat)
      requires Ready() && HistoryOk() && Totals(h) && At(p, h) && BlockIs(p, size, false) && n == p + BLOCK_HEADER_SIZE
      requires hb == h && tmpInTarget == size && (info.blockChecksum ==> blockXxh == [])
      ensures CopyingDirect()
    {
      hide Blocks, BlockAt, ReadLE32, Checksum, Ready, HistoryOk, Totals, At;
      assert Data()[..0] == [] && hb + [] == hb;
    }

    /** On to the data of a compressed block, its checksum included. */
    method EnterCompressed(size: nat, crcSize: nat, ghost q: nat)
      requires BetweenBlocks(q) && BlockIs(q, size, true) && n == q + BLOCK_HEADER_SIZE && size > 0
      requires crcSize == if info.blockChecksum then CHECKSUM_SIZE else 0
      modifies this`stage, this`tmpInTarget, this`tmpInSize, this`p, this`hb
      ensures stage == GetCBlock && Compressed(0)
    {
      hide Blocks, BlockAt, ReadLE32, Checksum, Ready, HistoryOk, Totals, At;
      p, hb := q, h;
      tmpInTarget, tmpInSize := size + crcSize, 0;
      stage := GetCBlock;
    }

    /** Input bytes are stored in tmpIn until it holds `target` of them, or the input is used up. */
    method StoreInput(c: Call, pos: nat, target: nat, ghost a: nat) returns (pos': nat)
      requires Fed(c, pos) && tmpInSize <= target <= |tmpIn| && n == a + tmpInSize && Has(tmpIn, tmpInSize, x, a)
      modifies this`tmpIn, this`tmpInSize, this`n
      ensures Fed(c, pos') && n == a + tmpInSize && Has(tmpIn, tmpInSize, x, a) && |tmpIn| == |old(tmpIn)|
      ensures pos' == pos + Min(target - old(tmpInSize), |c.src| - pos) && tmpInSize == old(tmpInSize) + (pos' - pos)
    {
      var m := Min(target - tmpInSize, |c.src| - pos);
      Take(c, pos, m);
      StoreHas(tmpIn, tmpInSize, c.src, pos, m, x, a);
      tmpIn := Store(tmpIn, tmpInSize, c.src, pos, m);
      tmpInSize := tmpInSize + m;
      n := n + m;
      pos' := pos + m;
    }

    /** The same into the header buffer. */
    method StoreInHeader(c: Call, pos: nat, target: nat, ghost a: nat) returns (pos': nat)
      requires Fed(c, pos) && tmpInSize <= target <= |header| && n == a + tmpInSize && Has(header, tmpInSize, x, a)
      modifies this`header, this`tmpInSize, this`n
      ensures Fed(c, pos') && n == a + tmpInSize && Has(header, tmpInSize, x, a) && |header| == |old(header)|
      ensures pos' == pos + Min(target - old(tmpInSize), |c.src| - pos) && tmpInSize == old(tmpInSize) + (pos' - pos)
    {
      var m := Min(target - tmpInSize, |c.src| - pos);
      Take(c, pos, m);
      StoreHas(header, tmpInSize, c.src, pos, m, x, a);
      header := Store(header, tmpInSize, c.src, pos, m);
      tmpInSize := tmpInSize + m;
      n := n + m;
      pos' := pos + m;
    }

    /** m bytes of the input are read in place. */
    method SkipInput(c: Call, pos: nat, m: nat) returns (pos': nat)
      requires Fed(c, pos) && pos + m <= |c.src|
      modifies this`n
      ensures Fed(c, pos') && pos' == pos + m && n == old(n) + m && n <= |x| && c.src[pos..pos + m] == x[old(n)..n]
    {
      Take(c, pos, m);
      n := n + m;
      pos' := pos + m;
    }

    /** The first bytes of the frame, before any of it is decoded. */
    ghost predicate FrameFront(s: seq<byte>)
      reads this, history
    {
      Leftover() && h == [] && HEADER_SIZE_MIN <= |s| <= |x| && s == x[..|s|] && Opened()
    }

    ghost predicate InHeader(s: seq<byte>)
      reads this`header, this`x, this`n
    {
      HEADER_SIZE_MIN <= |s| && Has(header, |s|, x, 0) && n == |s| && (|s| == HEADER_SIZE_MIN || (|s| == HeaderSize(s[4]) && !IsSkippable(x)))
    }

    /** LZ4F_decodeHeader, given the first bytes of the frame; in the header buffer, or in place. */
    method DecodeHeader(s: seq<byte>, inHeader: bool) returns (r: Outcome)
      requires FrameFront(s) && (inHeader ==> InHeader(s))
      requires inHeader || HEADER_SIZE_MAX <= |s|
      modifies this`info, this`remaining, this`stage, this`tmpInSize, this`tmpInTarget, this`header
      ensures Buffers() && r.Hint? && 0 < r.n <= |s|
      ensures IsSkippable(x) ==> if inHeader then stage == StoreSFrameSize && StoringSkipSize() else stage == GetSFrameSize && Skipping() && r.n == 4
      ensures !IsSkippable(x) ==> if stage == Init then HeaderIs(r.n) && (inHeader ==> r.n == n) else inHeader && stage == StoreFrameHeader && StoringHeader()
    {
      hide At, Opened, Blocks, Checksum, ReadLE32, Supported, HasHeader, InfoOf, ReadLE64;
      info := Info(true, false, false, 0, 0, 0);
      SkippableSeen(s);
      if IsSkippable(s) {
        r := DecodeSkippable(s, inHeader);
        return;
      }
      HeaderSeen(s);
      if ReadLE32(s, 0) != MAGIC {
        return Error(FrameTypeUnknown);
      }
      r := DecodeDescriptor(s, inHeader);
    }

    /** The descriptor: flags, sizes and header checksum. */
    method DecodeDescriptor(s: seq<byte>, inHeader: bool) returns (r: Outcome)
      requires FrameFront(s) && (if inHeader then InHeader(s) else HEADER_SIZE_MAX <= |s|) && !IsSkippable(x)
      modifies this`info, this`remaining, this`stage, this`tmpInSize, this`tmpInTarget
      ensures Buffers() && r.Hint? && 0 < r.n <= |s|
      ensures if stage == Init then HeaderIs(r.n) && (inHeader ==> r.n == n) else inHeader && stage == StoreFrameHeader && StoringHeader()
    {
      hide At, Opened, Blocks, Checksum, ReadLE32, Supported, HasHeader, InfoOf, ReadLE64, IsSkippable, BufferFor;
      HeaderSeen(s);
      var flg := s[4];
      FlagsSupported(s[4], s[5]);
      if Flag(flg, 2) {
        return Error(ReservedFlagSet);
      }
      if flg / 64 != 1 {
        return Error(HeaderVersionWrong);
      }
      var frameHeaderSize := HEADER_SIZE_MIN + (if Flag(flg, 8) then 8 else 0) + (if Flag(flg, 1) then 4 else 0);
      if |s| < frameHeaderSize {
        tmpInSize, tmpInTarget, stage := |s|, frameHeaderSize, StoreFrameHeader;
        return Hint(|s|);
      }
      r := TakeDescriptor(s, frameHeaderSize, inHeader);
    }

    /** The descriptor, when all of it is there. */
    method TakeDescriptor(s: seq<byte>, frameHeaderSize: nat, ghost inHeader: bool) returns (r: Outcome)
      requires FrameFront(s) && !IsSkippable(x) && (inHeader ==> InHeader(s)) && frameHeaderSize == HeaderSize(s[4]) <= |s|
      modifies this`info, this`remaining, this`stage
      ensures Buffers() && r == Hint(frameHeaderSize) && stage == Init && HeaderIs(frameHeaderSize)
    {
      hide At, Opened, Blocks, Checksum, ReadLE32, Supported, HasHeader, InfoOf, ReadLE64, IsSkippable, BufferFor;
      HeaderSeen(s);
      var flg := s[4];
      FlagsSupported(s[4], s[5]);
      var blockSizeID := s[5] / 16 % 8;
      if s[5] / 128 % 2 != 0 {
        return Error(ReservedFlagSet);
      }
      if blockSizeID < 4 {
        return Error(MaxBlockSizeInvalid);
      }
      if s[5] % 16 != 0 {
        return Error(ReservedFlagSet);
      }
      if HeaderChecksum(s[4..frameHeaderSize - 1]) != s[frameHeaderSize - 1] as nat {
        return Error(HeaderChecksumInvalid);
      }
      ContentSizeFits(s);
      info := Info(!Flag(flg, 32), Flag(flg, 16), Flag(flg, 4), if Flag(flg, 8) then ReadLE64(s, 6) else 0, MaxBlockSize(blockSizeID),
                   if Flag(flg, 1) then ReadLE32(s, frameHeaderSize - 5) else 0);
      InfoSame(s, info, blockSizeID);
      if Flag(flg, 8) { remaining := info.contentSize; }
      BlocksAt(frameHeaderSize);
      stage := Init;
      r := Hint(frameHeaderSize);
    }

    /** LZ4F_decodeHeader, special case of skippable frames. */
    method DecodeSkippable(s: seq<byte>, inHeader: bool) returns (r: Outcome)
      requires FrameFront(s) && (inHeader ==> InHeader(s)) && IsSkippable(x) && Skipped(x) == Some((content, end))
      modifies this`stage, this`tmpInSize, this`tmpInTarget
      ensures r.Hint? && 0 < r.n <= |s|
      ensures if inHeader then stage == StoreSFrameSize && StoringSkipSize() else stage == GetSFrameSize && Skipping() && r.n == 4
    {
      hide Opened, ReadLE32, IsSkippable, BufferFor;
      if inHeader {
        assert header[4..|s|] == header[..|s|][4..] == x[..|s|][4..] == x[4..|s|];
        tmpInSize, tmpInTarget, stage := |s|, SKIPPABLE_HEADER, StoreSFrameSize;
        return Hint(|s|);
      }
      stage := GetSFrameSize;
      r := Hint(4);
    }

    lemma FlagsSupported(flg: byte, bd: byte)
      requires Supported(flg, bd)
      ensures !Flag(flg, 2) && flg / 64 == 1 && bd / 128 % 2 == 0 && bd / 16 % 8 == bd / 16 >= 4 && bd % 16 == 0 && bd / 16 <= 7
    {
    }

    lemma InfoSame(s: seq<byte>, i: Info, id: nat)
      requires |s| >= HEADER_SIZE_MIN && Supported(s[4], s[5]) && |s| >= HeaderSize(s[4]) && id == s[5] / 16 && 4 <= id <= 7
      requires i == Info(!Flag(s[4], 32), Flag(s[4], 16), Flag(s[4], 4), if Flag(s[4], 8) then ReadLE64(s, 6) else 0, MaxBlockSize(id),
                         if Flag(s[4], 1) then ReadLE32(s, HeaderSize(s[4]) - 5) else 0)
      ensures i == InfoOf(s)
    {
      hide ReadLE32, ReadLE64;
    }

    lemma BlocksAt(q: nat)
      requires Blocks(codec, info, x, q, []) == Some((content, end))
      ensures At(q, [])
    {
    }

    ghost predicate HeaderStage()
      reads this, history
    {
      if stage == StoreFrameHeader then StoringHeader() else stage == GetFrameHeader && AtStart()
    }

    /** The header is read, or as much of it as is needed to know its kind and size. */
    ghost predicate HeaderDone()
      reads this, history
    {
      if stage == Init then HeaderRead() else if stage == StoreFrameHeader then StoringHeader() else OfSkippable(stage) && SkipStage()
    }

    /** dstage_storeFrameHeader */
    method StoreHeader(c: Call, pos: nat) returns (go: bool, r: Outcome, pos': nat)
      requires stage == StoreFrameHeader && StoringHeader() && Fed(c, pos)
      modifies this`info, this`remaining, this`stage, this`tmpInSize, this`tmpInTarget, this`header, this`n
      ensures r.Hint? && r.n > 0 && Fed(c, pos') && pos <= pos'
      ensures HeaderDone()
      ensures if go then pos < pos' else pos' == |c.src| && stage == StoreFrameHeader
    {
      hide At, Opened, ReadLE32, Has, HeaderIs, BufferFor, Fed, HeaderSize;
      FedInside(c, pos);
      go, r := true, Hint(1);
      pos' := StoreInHeader(c, pos, tmpInTarget, 0);
      if tmpInSize < tmpInTarget {
        go, r := false, Hint(tmpInTarget - tmpInSize + BLOCK_HEADER_SIZE);
        return;
      }
      HeldAll(header, tmpInTarget, x, 0);
      r := DecodeHeader(header[..tmpInTarget], true);
    }

    /** dstage_getFrameHeader, dstage_storeFrameHeader */
    method HeaderStep(c: Call, pos: nat) returns (go: bool, r: Outcome, pos': nat)
      requires HeaderStage() && Fed(c, pos)
      modifies this`info, this`remaining, this`stage, this`tmpInSize, this`tmpInTarget, this`header, this`n
      ensures r.Hint? && r.n > 0 && Fed(c, pos') && pos <= pos'
      ensures if go then pos < pos' && HeaderDone() else pos' == |c.src| && HeaderStage()
    {
      hide At, Opened, ReadLE32, Has, HeaderIs, BufferFor, Fed, HeaderSize;
      if stage == GetFrameHeader {
        FedInside(c, pos);
        if |c.src| - pos >= HEADER_SIZE_MAX {
          FrontInPlace(c, pos);
          go := true;
          r := DecodeHeader(c.src[pos..], false);
          pos' := SkipInput(c, pos, r.n);
          return;
        }
        tmpInSize := 0;
        if pos == |c.src| {
          return false, Hint(HEADER_SIZE_MIN), pos;
        }
        tmpInTarget := HEADER_SIZE_MIN;
        stage := StoreFrameHeader;
        NothingHeld(header, x, 0);
      }
      go, r, pos' := StoreHeader(c, pos);
    }

    lemma FrontInPlace(c: Call, pos: nat)
      requires Fed(c, pos) && n == 0
      ensures |c.src[pos..]| <= |x| && c.src[pos..] == x[..|c.src[pos..]|]
    {
    }

    /** Buffers large enough for the frame's blocks, unless there are such already. */
    method Allocate(c: Call, ghost dstPtr: nat)
      requires Buffers() && IsBlockSize(info.maxBlock) && Room(c, dstPtr)
      modifies this`tmpIn, history`tmpOutBuffer, history`maxBufferSize
      ensures Ready() && Room(c, dstPtr) && history.dict == 0 && history.dictSize == 0
      ensures BufferKept(old(history.tmpOutBuffer), old(history.maxBufferSize), c)
    {
      hide DeliveredIn;
      hide History.Clear;
      var bufferNeeded := info.maxBlock + (if info.linked then 2 * WINDOW else 0);
      if bufferNeeded > history.maxBufferSize {
        tmpIn := seq(info.maxBlock + CHECKSUM_SIZE, _ => 0);
        history.tmpOutBuffer, history.maxBufferSize := c.newBuffer, bufferNeeded;
      } else {
        BufferServes(|tmpIn|, history.maxBufferSize, info.maxBlock, info.linked);
      }
    }

    /** dstage_init */
    method InitStep(c: Call, ghost dstPtr: nat)
      requires stage == Init && HeaderRead() && Room(c, dstPtr)
      modifies this`stage, this`xxh, this`tmpIn, this`tmpInSize, this`tmpInTarget
      modifies history`tmpOutBuffer, history`maxBufferSize, history`tmpOut, history`tmpOutSize, history`tmpOutStart
      ensures stage == GetBlockHeader && BetweenBlocks(n) && Room(c, dstPtr)
      ensures BufferKept(old(history.tmpOutBuffer), old(history.maxBufferSize), c)
    {
      hide At, Room, Ready, Buffers, HeaderIs, BetweenBlocks;
      SizeKnown(n);
      if info.contentChecksum { xxh := []; }
      Allocate(c, dstPtr);
      EmptyBuffers();
      FirstBlock();
      tmpInSize, tmpInTarget, stage := 0, 0, GetBlockHeader;
    }

    method EmptyBuffers()
      requires Ready()
      modifies history`tmpOut, history`tmpOutSize, history`tmpOutStart
      ensures Ready() && history.tmpOut == history.tmpOutBuffer
    {
      hide History.Placed, BufferFor;
      history.tmpOut, history.tmpOutStart, history.tmpOutSize := history.tmpOutBuffer, 0, 0;
    }

    lemma SizeKnown(q: nat)
      requires HeaderIs(q)
      ensures IsBlockSize(info.maxBlock)
    {
      hide At, IsBlockSize;
    }

    lemma FirstBlock()
      requires Ready() && HeaderIs(n) && n <= |x| && history.dict == 0 && history.dictSize == 0 && history.tmpOut == history.tmpOutBuffer
      requires info.contentChecksum ==> xxh == []
      ensures BetweenBlocks(n)
    {
      hide At, BufferFor, IsBlockSize;
    }

    /** dstage_getBlockHeader, dstage_storeBlockHeader */
    method BlockHeaderStep(c: Call, pos: nat, dstPtr: nat) returns (go: bool, r: Outcome, pos': nat)
      requires (stage == GetBlockHeader || stage == StoreBlockHeader) && StageOk() && Fed(c, pos)
      modifies this`stage, this`tmpInTarget, this`tmpInSize, this`blockXxh, this`p, this`hb, this`tmpIn, this`n
      ensures StageOk() && r.Hint? && Fed(c, pos') && pos <= pos' && (go ==> pos < pos')
      ensures !go ==> r.n > 0 && (dstPtr == c.dstEnd || pos' == |c.src|) && (stage == GetCBlock || stage == StoreBlockHeader)
    {
      hide Fed, BetweenBlocks, StoringBlockHeader, Compressed, CopyingDirect, BeforeSuffix;
      var v;
      go, v, pos' := ReadBlockHeader(c, pos);
      if go {
        go, r := DecodeBlockHeader(v, n - BLOCK_HEADER_SIZE, c, pos', dstPtr);
      } else {
        r := Hint(BLOCK_HEADER_SIZE - tmpInSize);
      }
    }

    /** Its four bytes, in place or collected. */
    method ReadBlockHeader(c: Call, pos: nat) returns (done: bool, v: nat, pos': nat)
      requires (if stage == GetBlockHeader then BetweenBlocks(n) else stage == StoreBlockHeader && StoringBlockHeader()) && Fed(c, pos)
      modifies this`stage, this`tmpInSize, this`tmpIn, this`n
      ensures Fed(c, pos') && pos <= pos'
      ensures if done then pos < pos' && BLOCK_HEADER_SIZE <= n <= |x| && BetweenBlocks(n - BLOCK_HEADER_SIZE) && v == ReadLE32(x, n - BLOCK_HEADER_SIZE)
              else stage == StoreBlockHeader && StoringBlockHeader() && pos' == |c.src| && tmpInSize < BLOCK_HEADER_SIZE
    {
      hide At, Ready, HistoryOk, Totals, StoringBlockHeader, ReadLE32, Fed;
      FedInside(c, pos);
      if stage == GetBlockHeader && |c.src| - pos >= BLOCK_HEADER_SIZE {
        pos' := SkipInput(c, pos, BLOCK_HEADER_SIZE);
        ReadSame(c.src, pos, x, old(n));
        return true, ReadLE32(c.src, pos), pos';
      }
      if stage == GetBlockHeader {
        BeginBlockHeader();
      }
      done, v, pos' := CollectBlockHeader(c, pos);
    }

    method BeginBlockHeader()
      requires stage == GetBlockHeader && BetweenBlocks(n) && n <= |x|
      modifies this`stage, this`tmpInSize
      ensures stage == StoreBlockHeader && StoringBlockHeader()
    {
      hide At, Ready, HistoryOk, Totals, Has;
      tmpInSize := 0;
      stage := StoreBlockHeader;
      NothingHeld(tmpIn, x, n);
    }

    method CollectBlockHeader(c: Call, pos: nat) returns (done: bool, v: nat, pos': nat)
      requires StoringBlockHeader() && Fed(c, pos)
      modifies this`tmpInSize, this`tmpIn, this`n
      ensures Fed(c, pos') && pos <= pos'
      ensures if done then pos < pos' && BLOCK_HEADER_SIZE <= n <= |x| && BetweenBlocks(n - BLOCK_HEADER_SIZE) && v == ReadLE32(x, n - BLOCK_HEADER_SIZE)
              else StoringBlockHeader() && pos' == |c.src| && tmpInSize < BLOCK_HEADER_SIZE
    {
      hide At, HistoryOk, Totals, ReadLE32, Has, Fed, BufferFor;
      hide History.Placed;
      ghost var a := n - tmpInSize;
      pos' := StoreInput(c, pos, BLOCK_HEADER_SIZE, a);
      FedInside(c, pos');
      done, v := tmpInSize == BLOCK_HEADER_SIZE, 0;
      if done {
        HeldWord(tmpIn, x, a);
        v := ReadLE32(tmpIn, 0);
      }
    }

    lemma FedInside(c: Call, pos: nat)
      requires Fed(c, pos)
      ensures pos <= |c.src| && n <= |x|
    {
    }

    /** Where a block's data lie. */
    lemma BlockPlace()
      requires BlockAt(info, x, p).Block?
      ensures var b := BlockAt(info, x, p); var q := p + BLOCK_HEADER_SIZE; var e := q + |b.data|;
        && e <= |x| && b.data == x[q..e] && b.next == e + (if info.blockChecksum then CHECKSUM_SIZE else 0) <= |x| && |b.data| <= info.maxBlock
        && (info.blockChecksum ==> ReadLE32(x, e) == Checksum(b.data))
    {
      hide ReadLE32, Checksum;
    }

    /** Behind an uncompressed block. */
    lemma AfterRaw()
      requires InBlock(false)
      ensures At(BlockAt(info, x, p).next, hb + Data())
    {
      hide BlockAt, SuffixAt;
    }

    /** Behind a compressed block. */
    lemma AfterCompressed() returns (out: seq<byte>)
      requires InBlock(true)
      ensures codec(Data(), Window(info, hb)) == Some(out) && |out| <= info.maxBlock
      ensures At(BlockAt(info, x, p).next, hb + out)
    {
      hide BlockAt, SuffixAt, Window;
      out := BlockContent(codec, info, BlockAt(info, x, p), hb).value;
    }

    lemma CopiedMore(copied: nat, m: nat, at: nat)
      requires BlockAt(info, x, p).Block? && copied + m <= |Data()| && at == p + BLOCK_HEADER_SIZE + copied
      ensures at + m <= |x| && Data()[..copied + m] == Data()[..copied] + x[at..at + m]
    {
      hide ReadLE32, Checksum;
      BlockPlace();
      hide BlockAt;
      var q, e := p + BLOCK_HEADER_SIZE, p + BLOCK_HEADER_SIZE + |Data()|;
      SliceOfSlice(x, q, e, copied, copied + m, at, at + m);
      SliceJoin(Data(), 0, copied, copied + m);
    }

    lemma Remains(size: nat, decoded: nat, m: nat, rest: nat)
      requires rest == (size - decoded) % U64_RANGE
      ensures (rest - m) % U64_RANGE == (size - (decoded + m)) % U64_RANGE
    {
      var q := (size - decoded) / U64_RANGE;
      assert size - decoded == q * U64_RANGE + rest;
      assert (size - (decoded + m)) == q * U64_RANGE + (rest - m);
    }

    /** Checksum state and remaining size after `part` was decoded. */
    method Count(part: seq<byte>, ghost decoded: seq<byte>)
      requires Totals(decoded)
      modifies this`xxh, this`remaining
      ensures Totals(decoded + part)
    {
      if info.contentChecksum && !skipChecksum { xxh := xxh + part; }
      if info.contentSize != 0 {
        Remains(info.contentSize, |decoded|, |part|, remaining);
        remaining := (remaining - |part|) % U64_RANGE;
      }
    }

    /** Decoded bytes go straight to the destination. */
    method Output(c: Call, dstPtr: nat, part: seq<byte>) returns (dstPtr': nat)
      requires Ready() && HistoryOk() && Totals(h) && Room(c, dstPtr) && dstPtr + |part| <= c.dstEnd && c.dstStart != 0
      modifies this`xxh, this`remaining, this`h, history`mem, history`dict, history`dictSize
      ensures Ready() && HistoryOk() && Totals(h) && Room(c, dstPtr') && dstPtr' == dstPtr + |part|
      ensures h == old(h) + part && |history.mem| == |old(history.mem)|
    {
      hide Totals;
      hide History.Delivered, History.WholeDict, History.Placed, History.Clear, History.Outside;
      dstPtr' := dstPtr + |part|;
      history.DeliverDirect(c.from, c.dstStart, dstPtr, c.limit, part, info.linked, h, dstPtr');
      Count(part, h);
      h := h + part;
    }

    /** m bytes of an uncompressed block go from the input to the destination. */
    method Transfer(c: Call, pos: nat, dstPtr: nat, m: nat, ghost copied: nat) returns (pos': nat, dstPtr': nat)
      requires Fed(c, pos) && Room(c, dstPtr) && Copying(copied) && n == p + BLOCK_HEADER_SIZE + copied
      requires pos + m <= |c.src| && dstPtr + m <= c.dstEnd && copied + m <= |Data()| && c.dstStart != 0
      modifies this`blockXxh, this`xxh, this`remaining, this`n, this`h
      modifies history`mem, history`dict, history`dictSize
      ensures Fed(c, pos') && Room(c, dstPtr') && pos' == pos + m && dstPtr' == dstPtr + m
      ensures Copying(copied + m) && n == p + BLOCK_HEADER_SIZE + (copied + m) && Grown(old(h), dstPtr, dstPtr') && |history.mem| == |old(history.mem)|
    {
      hide At, Totals, Blocks, BlockAt, Has, Fed, ReadLE32, Checksum, InBlock, Data, Room, Ready, HistoryOk;
      CopyingIs(c, dstPtr, copied);
      ghost var d, d' := Data()[..copied], Data()[..copied + m];
      CopiedMore(copied, m, n);
      pos' := SkipInput(c, pos, m);
      var part := c.src[pos..pos'];
      assert d' == d + part;
      Regroup(hb, d, part);
      dstPtr' := Output(c, dstPtr, part);
      if info.blockChecksum && !skipChecksum { blockXxh := blockXxh + part; }
    }

    lemma CopyingIs(c: Call, dstPtr: nat, copied: nat)
      requires Copying(copied) && Room(c, dstPtr)
      ensures InBlock(false) && BlockAt(info, x, p).Block? && copied <= |Data()| && dstPtr <= c.dstEnd
      ensures c.dstStart == 0 ==> dstPtr == c.dstEnd
    {
    }

    /** The whole block is copied. */
    lemma CopiedAll()
      requires InBlock(false) && Copying(|Data()|)
      ensures Ready() && HistoryOk() && Totals(h) && At(BlockAt(info, x, p).next, h)
      ensures BlockAt(info, x, p).next == p + BLOCK_HEADER_SIZE + |Data()| + (if info.blockChecksum then CHECKSUM_SIZE else 0) <= |x|
    {
      hide At, BlockAt;
      BlockPlace();
      AfterRaw();
      assert Data()[..|Data()|] == Data();
    }

    /** dstage_copyDirect: an uncompressed block goes from the input to the destination. */
    method CopyDirectStep(c: Call, pos: nat, dstPtr: nat) returns (go: bool, r: Outcome, pos': nat, dstPtr': nat)
      requires stage == CopyDirect && StageOk() && Fed(c, pos) && Room(c, dstPtr)
      modifies this`stage, this`tmpInTarget, this`tmpInSize, this`blockXxh, this`xxh, this`remaining, this`n, this`h
      modifies history`mem, history`dict, history`dictSize
      ensures StageOk() && r.Hint? && Fed(c, pos') && Room(c, dstPtr') && pos <= pos' && dstPtr <= dstPtr'
      ensures go ==> stage == GetBlockChecksum || stage == GetBlockHeader
      ensures !go ==> stage == CopyDirect && r.n > 0 && (dstPtr' == c.dstEnd || pos' == |c.src|)
      ensures Grown(old(h), dstPtr, dstPtr') && |history.mem| == |old(history.mem)|
    {
      hide At, Totals, Blocks, BlockAt, Has, Fed, ReadLE32, Checksum, Ready, HistoryOk, Room, InBlock, Copying, Data, AwaitingBlockChecksum, BetweenBlocks;
      FedInside(c, pos);
      ghost var copied := n - (p + BLOCK_HEADER_SIZE);
      CopyingIs(c, dstPtr, copied);
      var sizeToCopy := if c.dstStart == 0 then 0 else Min(tmpInTarget, Min(|c.src| - pos, c.dstEnd - dstPtr));
      pos', dstPtr' := pos, dstPtr;
      if c.dstStart != 0 {
        pos', dstPtr' := Transfer(c, pos, dstPtr, sizeToCopy, copied);
      }
      go, r := true, Hint(1);
      if sizeToCopy == tmpInTarget {
        LeaveRaw();
      } else {
        tmpInTarget := tmpInTarget - sizeToCopy;
        go, r := false, Hint(tmpInTarget + (if info.blockChecksum then CHECKSUM_SIZE else 0) + BLOCK_HEADER_SIZE);
      }
    }

    /** Behind the data of an uncompressed block. */
    method LeaveRaw()
      requires InBlock(false) && Copying(|Data()|) && n == p + BLOCK_HEADER_SIZE + |Data()|
      modifies this`stage, this`tmpInSize
      ensures (stage == GetBlockChecksum && AwaitingBlockChecksum()) || (stage == GetBlockHeader && BetweenBlocks(n))
    {
      hide At, Totals, Blocks, BlockAt, Has, ReadLE32, Checksum, Ready, HistoryOk, Copying, Data;
      CopiedAll();
      if info.blockChecksum {
        tmpInSize := 0;
        stage := GetBlockChecksum;
        NothingHeld(header, x, n);
      } else {
        stage := GetBlockHeader;
      }
    }

    /** dstage_getBlockChecksum */
    method BlockChecksumStep(c: Call, pos: nat) returns (go: bool, r: Outcome, pos': nat)
      requires stage == GetBlockChecksum && StageOk() && Fed(c, pos)
      modifies this`stage, this`tmpInSize, this`header, this`n
      ensures StageOk() && r.Hint? && r.n > 0 && Fed(c, pos') && pos <= pos'
      ensures if go then pos < pos' && stage == GetBlockHeader else pos' == |c.src| && stage == GetBlockChecksum
    {
      hide AwaitingBlockChecksum, BetweenBlocks, Fed, Checksum;
      var readCRC;
      go, readCRC, pos' := ReadBlockChecksum(c, pos);
      r := Hint(1);
      if go {
        if !skipChecksum && readCRC != Checksum(blockXxh) {
          return false, Error(BlockChecksumInvalid), pos';
        }
        stage := GetBlockHeader;
      }
    }

    /** Its four bytes, in place or collected. */
    method ReadBlockChecksum(c: Call, pos: nat) returns (done: bool, readCRC: nat, pos': nat)
      requires AwaitingBlockChecksum() && Fed(c, pos)
      modifies this`tmpInSize, this`header, this`n
      ensures Fed(c, pos') && pos <= pos'
      ensures if done then pos < pos' && BetweenBlocks(n) && (skipChecksum || readCRC == Checksum(blockXxh)) else pos' == |c.src| && AwaitingBlockChecksum()
    {
      hide At, HistoryOk, Totals, Blocks, BlockAt, ReadLE32, Has, Fed, InBlock, Data, Checksum, BufferFor;
      hide History.Placed;
      FedInside(c, pos);
      RawDone();
      ghost var a := n - tmpInSize;
      if |c.src| - pos >= CHECKSUM_SIZE && tmpInSize == 0 {
        pos' := SkipInput(c, pos, CHECKSUM_SIZE);
        ReadSame(c.src, pos, x, a);
        done, readCRC := true, ReadLE32(c.src, pos);
      } else {
        pos' := StoreInHeader(c, pos, CHECKSUM_SIZE, a);
        done, readCRC := tmpInSize == CHECKSUM_SIZE, 0;
        if done {
          HeldWord(header, x, a);
          readCRC := ReadLE32(header, 0);
        }
      }
    }

    /** An uncompressed block whose checksum is read. */
    lemma RawDone()
      requires AwaitingBlockChecksum()
      ensures Ready() && HistoryOk() && Totals(h) && InBlock(false) && Data()[..|Data()|] == Data()
      ensures var e := p + BLOCK_HEADER_SIZE + |Data()|; e + CHECKSUM_SIZE <= |x| && ReadLE32(x, e) == Checksum(Data()) && At(e + CHECKSUM_SIZE, h)
    {
      hide At, BlockAt, Totals, Ready, HistoryOk, Has, ReadLE32, Checksum;
      BlockPlace();
      CopiedAll();
    }

    lemma CompressedIs(stored: nat)
      requires Compressed(stored)
      ensures tmpInTarget <= |tmpIn| && n + (tmpInTarget - stored) <= |x|
    {
      hide At, Totals, HistoryOk, ReadLE32, Checksum;
      BlockPlace();
      hide BlockAt;
    }

    /** A compressed block and its checksum have been read; they are given as `selected`. */
    ghost predicate Collected(selected: seq<byte>)
      reads this, history
    {
      && Ready() && HistoryOk() && Totals(h) && InBlock(true) && h == hb
      && n == BlockAt(info, x, p).next == p + BLOCK_HEADER_SIZE + |selected| <= |x| && selected == x[p + BLOCK_HEADER_SIZE..n]
    }

    /** dstage_storeCBlock, up to the complete block */
    method StoreBlock(c: Call, pos: nat) returns (done: bool, r: Outcome, pos': nat, selected: seq<byte>)
      requires Fed(c, pos) && StoringCBlock()
      modifies this`tmpInSize, this`tmpIn, this`n
      ensures r.Hint? && r.n > 0 && Fed(c, pos') && pos <= pos'
      ensures if done then Collected(selected) && pos < pos' else StoringCBlock() && pos' == |c.src|
    {
      hide At, HistoryOk, Totals, Blocks, BlockAt, ReadLE32, Has, Fed, InBlock, Data, Checksum, BufferFor;
      hide History.Placed;
      FedInside(c, pos);
      done, r, selected := true, Hint(1), [];
      ghost var a := p + BLOCK_HEADER_SIZE;
      var target := tmpInTarget;
      CompressedIs(n - a);
      pos' := StoreInput(c, pos, target, a);
      if tmpInSize < target {
        done, r := false, Hint(target - tmpInSize + (if info.blockChecksum then CHECKSUM_SIZE else 0) + BLOCK_HEADER_SIZE);
        return;
      }
      HeldAll(tmpIn, target, x, a);
      selected := tmpIn[..target];
    }

    /** Collects a compressed block and its checksum, in place if the input has all of it. */
    method CollectCBlock(c: Call, pos: nat) returns (done: bool, r: Outcome, pos': nat, selected: seq<byte>)
      requires Fed(c, pos) && (if stage == StoreCBlock then StoringCBlock() else stage == GetCBlock && Compressed(0))
      modifies this`stage, this`tmpInSize, this`tmpIn, this`n
      ensures r.Hint? && r.n > 0 && Fed(c, pos') && pos <= pos'
      ensures if done then Collected(selected) && pos < pos' else stage == StoreCBlock && StoringCBlock() && pos' == |c.src|
    {
      hide At, HistoryOk, Totals, Blocks, BlockAt, ReadLE32, Has, Fed, InBlock, Data, Checksum, BufferFor;
      hide History.Placed;
      if stage == GetCBlock {
        FedInside(c, pos);
        CompressedIs(0);
        if |c.src| - pos >= tmpInTarget {
          done, r := true, Hint(1);
          pos' := SkipInput(c, pos, tmpInTarget);
          selected := c.src[pos..pos'];
          return;
        }
        tmpInSize := 0;
        stage := StoreCBlock;
        NothingHeld(tmpIn, x, n);
      }
      done, r, pos', selected := StoreBlock(c, pos);
    }

    /** dstage_getCBlock, dstage_storeCBlock */
    method CBlockStep(c: Call, pos: nat, dstPtr: nat) returns (go: bool, r: Outcome, pos': nat, dstPtr': nat)
      requires Fed(c, pos) && Room(c, dstPtr) && (if stage == StoreCBlock then StoringCBlock() else stage == GetCBlock && Compressed(0))
      modifies this`stage, this`tmpInSize, this`tmpInTarget, this`tmpIn, this`n, this`h, this`xxh, this`remaining
      modifies history`mem, history`dict, history`dictSize, history`tmpOut, history`tmpOutSize, history`tmpOutStart
      ensures r.Hint? && r.n > 0 && Fed(c, pos') && Room(c, dstPtr') && pos <= pos' && dstPtr <= dstPtr'
      ensures if go then DecodedOk() && pos < pos' else stage == StoreCBlock && StoringCBlock() && pos' == |c.src|
      ensures Grown(old(h), dstPtr, dstPtr') && |history.mem| == |old(history.mem)|
    {
      hide Collected, StoringCBlock, Fed, Room, DecodedOk;
      dstPtr' := dstPtr;
      var selected;
      go, r, pos', selected := CollectCBlock(c, pos);
      if go {
        r, dstPtr' := DecodeBlock(c, dstPtr, selected);
      }
    }

    /** A compressed block is decoded: into the destination, or into tmpOut. */
    ghost predicate DecodedOk()
      reads this, history
    {
      (stage == FlushOut && FlushingOut()) || (stage == GetBlockHeader && BetweenBlocks(n))
    }

    lemma InBlockIs(compressed: bool)
      requires InBlock(compressed)
      ensures BlockAt(info, x, p).Block?
    {
    }

    /** The dictionary is the window of the frame format. */
    lemma WindowIs()
      requires Ready() && HistoryOk()
      ensures history.dict + history.dictSize <= |history.mem| && history.DictWindow() == Window(info, h) && info.maxBlock > 0
    {
      hide Last;
      if !info.linked { LastOfNone(); }
    }

    lemma LastOfNone()
      ensures Last([], WINDOW) == []
    {
    }

    /** The block behind its checksum. */
    lemma BlockData(a: nat, selected: seq<byte>)
      requires BlockAt(info, x, p).Block? && a == p + BLOCK_HEADER_SIZE
      requires BlockAt(info, x, p).next == a + |selected| <= |x| && selected == x[a..a + |selected|]
      ensures var t := |Data()|; t + (if info.blockChecksum then CHECKSUM_SIZE else 0) == |selected| && selected[..t] == Data()
      ensures info.blockChecksum ==> ReadLE32(selected, |Data()|) == Checksum(Data())
    {
      hide ReadLE32, Checksum;
      BlockPlace();
      hide BlockAt;
      var t := |Data()|;
      var e, end := a + t, a + |selected|;
      SliceOfSlice(x, a, end, 0, t, a, e);
      if info.blockChecksum {
        var t4, e4 := t + 4, e + 4;
        SliceOfSlice(x, a, end, t, t4, e, e4);
        ReadSame(selected, t, x, e);
      }
    }

    /** A complete compressed block: its checksum, and its bytes. */
    method CheckBlock(selected: seq<byte>) returns (ok: bool, block: seq<byte>)
      requires Collected(selected)
      modifies this`tmpInTarget
      ensures ok && BlockAt(info, x, p).Block? && block == Data()
    {
      hide At, HistoryOk, Totals, Blocks, BlockAt, ReadLE32, Checksum, InBlock, Data, Ready;
      InBlockIs(true);
      BlockData(p + BLOCK_HEADER_SIZE, selected);
      tmpInTarget := |selected|;
      ok := true;
      if info.blockChecksum {
        tmpInTarget := tmpInTarget - CHECKSUM_SIZE;
        ok := ReadLE32(selected, tmpInTarget) == Checksum(selected[..tmpInTarget]);
      }
      block := selected[..tmpInTarget];
    }

    /** The block's bytes, into the destination or tmpOut. */
    method DecodeBlock(c: Call, dstPtr: nat, selected: seq<byte>) returns (r: Outcome, dstPtr': nat)
      requires Collected(selected) && Room(c, dstPtr)
      modifies this`stage, this`tmpInTarget, this`h, this`xxh, this`remaining
      modifies history`mem, history`dict, history`dictSize, history`tmpOut, history`tmpOutSize, history`tmpOutStart
      ensures DecodedOk() && r.Hint? && r.n > 0
      ensures Room(c, dstPtr') && dstPtr <= dstPtr' && Grown(old(h), dstPtr, dstPtr') && |history.mem| == |old(history.mem)|
    {
      hide At, HistoryOk, Totals, Blocks, BlockAt, Room, InBlock, Data, Window, Last, Ready, FlushingOut;
      var ok, block := CheckBlock(selected);
      if !ok {
        return Error(BlockChecksumInvalid), dstPtr;
      }
      ghost var out := AfterCompressed();
      WindowIs();
      RoomIs(c, dstPtr);
      r, dstPtr' := Hint(1), dstPtr;
      var decoded := codec(block, history.DictWindow());
      if decoded.None? || |decoded.value| > info.maxBlock {
        return Error(DecompressionFailed), dstPtr;
      }
      dstPtr' := PlaceBlock(c, dstPtr, decoded.value);
    }

    method PlaceBlock(c: Call, dstPtr: nat, block: seq<byte>) returns (dstPtr': nat)
      requires Ready() && HistoryOk() && Totals(h) && h == hb && Room(c, dstPtr) && |block| <= info.maxBlock && info.maxBlock > 0 && At(n, hb + block)
      modifies this`stage, this`h, this`xxh, this`remaining
      modifies history`mem, history`dict, history`dictSize, history`tmpOut, history`tmpOutSize, history`tmpOutStart
      ensures DecodedOk() && Room(c, dstPtr') && dstPtr <= dstPtr' && Grown(old(h), dstPtr, dstPtr') && |history.mem| == |old(history.mem)|
    {
      hide At, HistoryOk, Totals, Room, Ready, FlushingOut;
      RoomIs(c, dstPtr);
      dstPtr' := dstPtr;
      if c.dstEnd - dstPtr >= info.maxBlock && !(history.dict != 0 && history.dict + history.dictSize == history.tmpOut) {
        dstPtr' := Output(c, dstPtr, block);
        stage := GetBlockHeader;
      } else {
        IntoTmp(c, dstPtr, block);
        stage := FlushOut;
      }
    }

    lemma RoomIs(c: Call, dstPtr: nat)
      requires Room(c, dstPtr)
      ensures c.dstStart <= dstPtr <= c.dstEnd <= |history.mem| && (c.dstStart == 0 ==> c.dstEnd == 0)
    {
    }

    /** Decodes into the decoder's buffer. */
    method IntoTmp(c: Call, dstPtr: nat, block: seq<byte>)
      requires Ready() && HistoryOk() && Totals(h) && h == hb && Room(c, dstPtr) && |block| <= info.maxBlock && At(n, hb + block)
      modifies this`xxh, this`remaining
      modifies history`mem, history`dict, history`dictSize, history`tmpOut, history`tmpOutSize, history`tmpOutStart
      ensures FlushingOut() && Room(c, dstPtr) && |history.mem| == |old(history.mem)|
    {
      hide At, Totals, Ready, Room, HistoryOk, InTmpOut;
      PutInTmp(c, dstPtr, block);
      Count(block, h);
      TmpFlushes(block);
    }

    /** The decoded block is in the buffer, and nothing of it is flushed. */
    ghost predicate InTmpOut(block: seq<byte>)
      reads this`info, this`h, history
    {
      && history.Placed() && history.Flushing(h, h) && history.tmpOutSize == |block| && history.tmpOut + |block| <= |history.mem|
      && Bytes(history.mem, history.tmpOut, history.tmpOut + |block|) == block
      && (if info.linked then history.FlushDict(h, h) else history.dict == 0 && history.dictSize == 0 && history.tmpOut == history.tmpOutBuffer)
    }

    lemma TmpFlushes(block: seq<byte>)
      requires Ready() && InTmpOut(block) && h == hb && Totals(h + block) && At(n, hb + block)
      ensures FlushingOut()
    {
      hide At, Totals, Ready;
      hide History.FlushDict, History.Flushing;
    }

    method PutInTmp(c: Call, dstPtr: nat, block: seq<byte>)
      requires Ready() && HistoryOk() && Room(c, dstPtr) && |block| <= info.maxBlock
      modifies history`mem, history`dict, history`dictSize, history`tmpOut, history`tmpOutSize, history`tmpOutStart
      ensures Ready() && InTmpOut(block) && Room(c, dstPtr) && |history.mem| == |old(history.mem)|
    {
      hide History.WholeDict, History.FlushDict, History.Flushing, DeliveredIn, RoomFor, BufferFor, Untouched;
      ghost var was, bufferEnd := history.mem, history.tmpOutBuffer + history.maxBufferSize;
      MakePlace(c, dstPtr, bufferEnd);
      ghost var mid := history.mem;
      ghost var e := history.tmpOut + |block|;
      history.DecodeToTmp(block, info.linked, h, bufferEnd, e);
      history.DeliveredKept(mid, c.from, dstPtr, c.limit, h, history.tmpOutBuffer, bufferEnd);
    }

    /** Where the block goes. */
    method MakePlace(c: Call, dstPtr: nat, ghost bufferEnd: nat)
      requires Ready() && HistoryOk() && Room(c, dstPtr) && bufferEnd == history.tmpOutBuffer + history.maxBufferSize
      modifies history`mem, history`dict, history`dictSize, history`tmpOut
      ensures Ready() && Room(c, dstPtr) && |history.mem| == |old(history.mem)| && history.tmpOutBuffer <= history.tmpOut
      ensures history.tmpOut + info.maxBlock <= bufferEnd
      ensures if info.linked then history.WholeDict(h) && RoomFor(history.tmpOut - history.tmpOutBuffer, h) && (history.dict == history.tmpOutBuffer ==> history.dict + history.dictSize == history.tmpOut)
               else history.dict == 0 && history.dictSize == 0 && history.tmpOut == history.tmpOutBuffer
    {
      hide History.WholeDict, DeliveredIn, RoomFor, BufferFor, Untouched;
      if info.linked {
        ghost var was := history.mem;
        history.PlaceTmpOut(info.maxBlock, h, bufferEnd);
        history.DeliveredKept(was, c.from, dstPtr, c.limit, h, history.tmpOutBuffer, bufferEnd);
      }
    }

    /** dstage_flushOut */
    method FlushStep(c: Call, dstPtr: nat) returns (go: bool, r: Outcome, dstPtr': nat)
      requires FlushingOut() && Room(c, dstPtr) && stage == FlushOut
      modifies this`stage, this`h, history`mem, history`dict, history`dictSize, history`tmpOutStart
      ensures Room(c, dstPtr') && dstPtr <= dstPtr' && r.Hint? && r.n > 0
      ensures if go then stage == GetBlockHeader && BetweenBlocks(n) else stage == FlushOut && FlushingOut() && dstPtr' == c.dstEnd
      ensures Grown(old(h), dstPtr, dstPtr') && |history.mem| == |old(history.mem)|
    {
      hide At, Totals, FlushingOut, Room, BetweenBlocks;
      PendingIs();
      dstPtr' := dstPtr;
      RoomIs(c, dstPtr);
      if c.dstStart != 0 {
        var m := Min(history.tmpOutSize - history.tmpOutStart, c.dstEnd - dstPtr);
        dstPtr' := FlushSome(c, dstPtr, m);
      }
      go, r := true, Hint(BLOCK_HEADER_SIZE);
      if history.tmpOutStart == history.tmpOutSize {
        AllFlushed();
        stage := GetBlockHeader;
      } else {
        go := false;
      }
    }

    lemma PendingIs()
      requires FlushingOut()
      ensures history.tmpOutStart <= history.tmpOutSize
    {
      hide At, Totals, Ready;
      hide History.FlushDict;
    }

    /** m bytes of the block in tmpOut go to the destination. */
    method FlushSome(c: Call, dstPtr: nat, m: nat) returns (dstPtr': nat)
      requires FlushingOut() && Room(c, dstPtr) && c.dstStart != 0 && dstPtr + m <= c.dstEnd && history.tmpOutStart + m <= history.tmpOutSize
      modifies this`h, history`mem, history`dict, history`dictSize, history`tmpOutStart
      ensures FlushingOut() && Room(c, dstPtr') && dstPtr' == dstPtr + m && history.tmpOutStart == old(history.tmpOutStart) + m
      ensures Grown(old(h), dstPtr, dstPtr') && |history.mem| == |old(history.mem)|
    {
      hide At, Totals, BufferFor;
      hide History.Delivered, History.WholeDict, History.FlushDict, History.Outside, History.Clear;
      ghost var flushed, blockEnd := history.tmpOut + history.tmpOutStart, history.tmpOut + history.tmpOutSize;
      dstPtr' := dstPtr + m;
      ghost var flushNext := flushed + m;
      ghost var part := Bytes(history.mem, flushed, flushNext);
      history.DeliverFlush(c.from, c.dstStart, dstPtr, c.limit, m, info.linked, hb, h, dstPtr', flushed, flushNext, blockEnd);
      h := h + part;
    }

    /** The whole block is flushed: the dictionary is the whole window again. */
    lemma AllFlushed()
      requires FlushingOut() && history.tmpOutStart == history.tmpOutSize
      ensures BetweenBlocks(n)
    {
      hide At, Totals, Last;
    }

    /** LZ4F_resetDecompressionContext */
    method Reset()
      modifies this`stage, this`skipChecksum, history`dict, history`dictSize
      ensures stage == GetFrameHeader && !skipChecksum && history.dict == 0 && history.dictSize == 0
    {
      stage, skipChecksum, history.dict, history.dictSize := GetFrameHeader, false, 0, 0;
    }

    /** The frame is done, and the context can start another. */
    ghost predicate Finished()
      reads this, history
    {
      stage == GetFrameHeader && Leftover() && h == content && n == end
    }

    /** dstage_getSuffix, dstage_storeSuffix */
    method SuffixStep(c: Call, pos: nat, ghost dstPtr: nat) returns (r: Outcome, pos': nat)
      requires Fed(c, pos) && (if stage == StoreSuffix then StoringSuffix() else stage == GetSuffix && BeforeSuffix()) && Place(c, dstPtr)
      modifies this`stage, this`skipChecksum, this`tmpInSize, this`tmpIn, this`n, history`dict, history`dictSize
      ensures r.Hint? && Fed(c, pos') && pos <= pos' && Place(c, dstPtr)
      ensures if r.n == 0 then Finished() && history.dict == 0 && history.dictSize == 0 else stage == StoreSuffix && StoringSuffix() && pos' == |c.src|
    {
      hide Totals, Has, Fed, ReadLE32, Checksum, Place, Ready, StoringSuffix, Finished, EndRead, Leftover;
      pos' := pos;
      if stage == GetSuffix {
        FedInside(c, pos);
        NothingLeft(n);
        if remaining != 0 {
          return Error(FrameSizeWrong), pos;
        }
        if !info.contentChecksum {
          AtEndRead();
          Finish();
          return Hint(0), pos;
        }
      }
      var done, readCRC;
      done, readCRC, pos' := ReadContentChecksum(c, pos);
      if !done {
        return Hint(CHECKSUM_SIZE - tmpInSize), pos';
      }
      if !skipChecksum && readCRC != Checksum(xxh) {
        return Error(ContentChecksumInvalid), pos';
      }
      Finish();
      r := Hint(0);
    }

    /** Everything is read. */
    ghost predicate EndRead()
      reads this, history
    {
      Ready() && h == content && n == end && remaining == 0
    }

    lemma AtEndRead()
      requires BeforeSuffix() && remaining == 0 && n == end
      ensures EndRead()
    {
      hide Ready, Totals;
    }

    method Finish()
      requires EndRead()
      modifies this`stage, this`skipChecksum, history`dict, history`dictSize
      ensures Finished() && history.dict == 0 && history.dictSize == 0
    {
      hide BufferFor;
      Reset();
    }

    /** The checksum of the content, in place or collected. */
    method ReadContentChecksum(c: Call, pos: nat) returns (done: bool, readCRC: nat, pos': nat)
      requires Fed(c, pos) && (if stage == StoreSuffix then StoringSuffix() else stage == GetSuffix && BeforeSuffix() && info.contentChecksum)
      modifies this`stage, this`tmpInSize, this`tmpIn, this`n
      ensures Fed(c, pos') && pos <= pos'
      ensures if done then EndRead() && (skipChecksum || readCRC == Checksum(xxh)) else stage == StoreSuffix && StoringSuffix() && pos' == |c.src| && tmpInSize < CHECKSUM_SIZE
    {
      hide Totals, Fed, ReadLE32, Checksum, Ready, SuffixAt, StoringSuffix;
      FedInside(c, pos);
      if stage == GetSuffix && |c.src| - pos >= CHECKSUM_SIZE {
        NothingLeft(n);
        pos' := SkipInput(c, pos, CHECKSUM_SIZE);
        ReadSame(c.src, pos, x, old(n));
        return true, ReadLE32(c.src, pos), pos';
      }
      if stage == GetSuffix {
        BeginSuffix();
      }
      done, readCRC, pos' := CollectContentChecksum(c, pos);
    }

    method BeginSuffix()
      requires stage == GetSuffix && BeforeSuffix() && info.contentChecksum
      modifies this`stage, this`tmpInSize
      ensures stage == StoreSuffix && StoringSuffix()
    {
      hide Totals, Ready, SuffixAt, Has;
      tmpInSize := 0;
      stage := StoreSuffix;
      NothingHeld(tmpIn, x, n);
    }

    method CollectContentChecksum(c: Call, pos: nat) returns (done: bool, readCRC: nat, pos': nat)
      requires Fed(c, pos) && StoringSuffix()
      modifies this`tmpInSize, this`tmpIn, this`n
      ensures Fed(c, pos') && pos <= pos'
      ensures if done then EndRead() && (skipChecksum || readCRC == Checksum(xxh)) else StoringSuffix() && pos' == |c.src| && tmpInSize < CHECKSUM_SIZE
    {
      hide Totals, Has, Fed, ReadLE32, Checksum, BufferFor, SuffixAt;
      hide History.Placed;
      FedInside(c, pos);
      ghost var a := n - tmpInSize;
      NothingLeft(a);
      pos' := StoreInput(c, pos, CHECKSUM_SIZE, a);
      done, readCRC := tmpInSize == CHECKSUM_SIZE, 0;
      if done {
        HeldWord(tmpIn, x, a);
        readCRC := ReadLE32(tmpIn, 0);
      }
    }

    // -------------------------------------------------------- skippable frames

    lemma SizeStored(k: nat, src: seq<byte>, pos: nat, m: nat)
      requires 4 <= k && k + m <= |header| && k + m <= |x| && pos + m <= |src| && header[4..k] == x[4..k] && src[pos..pos + m] == x[k..k + m]
      ensures Store(header, k, src, pos, m)[4..k + m] == x[4..k + m]
    {
      assert Store(header, k, src, pos, m)[4..k + m] == header[4..k] + src[pos..pos + m];
      assert x[4..k + m] == x[4..k] + x[k..k + m];
    }

    /** The size is stored behind what is there of it. */
    method StoreSize(c: Call, pos: nat) returns (pos': nat)
      requires StoringSkipSize() && Fed(c, pos)
      modifies this`header, this`tmpInSize, this`n
      ensures Fed(c, pos') && Skipping() && 4 <= tmpInSize <= SKIPPABLE_HEADER && n == tmpInSize <= |x| && header[4..tmpInSize] == x[4..tmpInSize]
      ensures pos' == pos + Min(SKIPPABLE_HEADER - old(tmpInSize), |c.src| - pos) && tmpInSize == old(tmpInSize) + (pos' - pos)
    {
      hide ReadLE32, IsSkippable, BufferFor, Skipped;
      var k, m := tmpInSize, Min(SKIPPABLE_HEADER - tmpInSize, |c.src| - pos);
      Take(c, pos, m);
      SizeStored(k, c.src, pos, m);
      header := Store(header, k, c.src, pos, m);
      tmpInSize := tmpInSize + m;
      n := n + m;
      pos' := pos + m;
    }

    /** dstage_getSFrameSize, dstage_storeSFrameSize */
    method SkipSizeStep(c: Call, pos: nat) returns (go: bool, r: Outcome, pos': nat)
      requires Fed(c, pos) && (if stage == StoreSFrameSize then StoringSkipSize() else stage == GetSFrameSize && Skipping() && n == 4)
      modifies this`stage, this`info, this`tmpInSize, this`tmpInTarget, this`header, this`n
      ensures r.Hint? && r.n > 0 && Fed(c, pos') && pos <= pos'
      ensures if go then pos < pos' && stage == SkipSkippable && SkippingRest() else stage == StoreSFrameSize && StoringSkipSize() && pos' == |c.src|
    {
      hide Fed, Skipping, StoringSkipSize, SkippingRest;
      var size;
      go, size, pos' := ReadSkipSize(c, pos);
      r := Hint(1);
      if !go {
        r := Hint(SKIPPABLE_HEADER - tmpInSize);
        return;
      }
      StartSkipping(size);
    }

    method StartSkipping(size: nat)
      requires Skipping() && n == SKIPPABLE_HEADER <= |x| && size == ReadLE32(x, 4)
      modifies this`stage, this`info, this`tmpInTarget
      ensures stage == SkipSkippable && SkippingRest()
    {
      hide ReadLE32, IsSkippable, BufferFor;
      info := info.(contentSize := size);
      tmpInTarget, stage := size, SkipSkippable;
    }

    /** The size of a skippable frame, in place or collected. */
    method ReadSkipSize(c: Call, pos: nat) returns (done: bool, size: nat, pos': nat)
      requires Fed(c, pos) && (if stage == StoreSFrameSize then StoringSkipSize() else stage == GetSFrameSize && Skipping() && n == 4)
      modifies this`stage, this`tmpInSize, this`tmpInTarget, this`header, this`n
      ensures Fed(c, pos') && pos <= pos'
      ensures if done then pos < pos' && Skipping() && n == SKIPPABLE_HEADER <= |x| && size == ReadLE32(x, 4)
              else stage == StoreSFrameSize && StoringSkipSize() && pos' == |c.src| && tmpInSize < SKIPPABLE_HEADER
    {
      hide ReadLE32, Fed, Skipping;
      FedInside(c, pos);
      done := true;
      if stage == GetSFrameSize && |c.src| - pos >= 4 {
        pos' := SkipInput(c, pos, 4);
        ReadSame(c.src, pos, x, 4);
        size := ReadLE32(c.src, pos);
        return;
      }
      if stage == GetSFrameSize {
        tmpInSize, tmpInTarget := 4, SKIPPABLE_HEADER;
        stage := StoreSFrameSize;
        SizeStarts();
      }
      pos' := StoreSize(c, pos);
      done, size := tmpInSize == SKIPPABLE_HEADER, 0;
      if done {
        HeaderHasSize();
        ReadSame(header, 4, x, 4);
        size := ReadLE32(header, 4);
      }
    }

    lemma SizeStarts()
      requires Skipping() && n == tmpInSize == 4 && tmpInTarget == SKIPPABLE_HEADER && n <= |x|
      ensures StoringSkipSize()
    {
      assert |header| == HEADER_SIZE_MAX;
      assert header[4..4] == x[4..4];
    }

    lemma HeaderHasSize()
      requires Skipping()
      ensures |header| == HEADER_SIZE_MAX
    {
    }

    method SkipFrame(c: Call, pos: nat) returns (go: bool, r: Outcome, pos': nat)
      requires Fed(c, pos) && SkipStage()
      modifies this`stage, this`info, this`tmpInSize, this`tmpInTarget, this`header, this`n, this`skipChecksum, history`dict, history`dictSize
      ensures r.Hint? && Fed(c, pos') && pos <= pos' && history.dict == 0 && history.dictSize == 0
      ensures go ==> r.n > 0 && OfSkippable(stage) && SkipStage() && pos < pos'
      ensures !go ==> if r.n == 0 then Finished() else OfSkippable(stage) && SkipStage() && pos' == |c.src| && (stage == SkipSkippable ==> tmpInTarget > 0)
    {
      hide ReadLE32, IsSkippable, BufferFor, Fed, Finished;
      if stage == SkipSkippable {
        go := false;
        r, pos' := SkipStep(c, pos);
      } else {
        go, r, pos' := SkipSizeStep(c, pos);
      }
    }

    /** dstage_skipSkippable */
    method SkipStep(c: Call, pos: nat) returns (r: Outcome, pos': nat)
      requires Fed(c, pos) && stage == SkipSkippable && SkippingRest()
      modifies this`stage, this`skipChecksum, this`tmpInTarget, this`n, history`dict, history`dictSize
      ensures r.Hint? && Fed(c, pos') && pos <= pos' && history.dict == 0 && history.dictSize == 0
      ensures if r.n == 0 then Finished() else stage == SkipSkippable && SkippingRest() && tmpInTarget > 0 && pos' == |c.src|
    {
      hide ReadLE32, IsSkippable, BufferFor, Fed;
      FedInside(c, pos);
      pos' := SkipInput(c, pos, Min(tmpInTarget, |c.src| - pos));
      tmpInTarget := tmpInTarget - (pos' - pos);
      r := Hint(tmpInTarget);
      if tmpInTarget == 0 { Reset(); }
    }

    /** At the end of the content. */
    lemma NothingLeft(a: nat)
      requires Totals(h) && SuffixAt(info, x, a, h) == Some(end) && a <= |x|
      ensures remaining == 0
      ensures if info.contentChecksum then a + CHECKSUM_SIZE == end <= |x| && ReadLE32(x, a) == Checksum(h) && (!skipChecksum ==> xxh == h) else a == end
    {
      hide ReadLE32, Checksum;
    }

    /** The decoder's buffer is the old one, or newly allocated. */
    ghost predicate BufferKept(tmpOutBuffer: nat, maxBufferSize: nat, c: Call)
      reads history`tmpOutBuffer, history`maxBufferSize
    {
      (history.tmpOutBuffer == tmpOutBuffer && history.maxBufferSize == maxBufferSize) || history.tmpOutBuffer == c.newBuffer
    }

    /** Which of the stages that need no input come first. */
    function Rank(s: Stage): nat {
      if s == Init || s == CopyDirect || s == FlushOut then 1 else 0
    }

    /** After a stage that does not go on: the frame is done, or more input or room is needed. */
    ghost predicate Stopped(c: Call, r: Outcome, pos: nat, dstPtr: nat)
      reads this, history
    {
      r.Hint? &&
      if r.n == 0 then Finished() && history.dict == 0 && history.dictSize == 0 else
        StageOk() && stage != GetSuffix && (pos == |c.src| || dstPtr == c.dstEnd) && (stage == FlushOut ==> dstPtr == c.dstEnd)
        && (stage == SkipSkippable ==> tmpInTarget > 0)
    }

    /** One turn among the blocks. */
    method BlockStep(c: Call, pos: nat, dstPtr: nat) returns (go: bool, r: Outcome, pos': nat, dstPtr': nat)
      requires StageOk() && (BetweenFlushes() || stage == FlushOut) && Fed(c, pos) && Room(c, dstPtr)
      modifies this`stage, this`info, this`remaining, this`tmpIn, this`tmpInSize, this`tmpInTarget, this`header, this`xxh, this`blockXxh, this`skipChecksum
      modifies this`n, this`h, this`p, this`hb, history
      ensures r.Hint? && Fed(c, pos') && RoomNow(c, dstPtr') && pos <= pos' && dstPtr <= dstPtr' && Grown(old(h), dstPtr, dstPtr')
      ensures go ==> StageOk() && (pos < pos' || (pos == pos' && Rank(stage) < Rank(old(stage))))
      ensures !go ==> Stopped(c, r, pos', dstPtr')
      ensures |history.mem| == |old(history.mem)|
      ensures BufferKept(old(history.tmpOutBuffer), old(history.maxBufferSize), c)
    {
      hide AtStart, StoringHeader, HeaderRead, BetweenBlocks, StoringBlockHeader, CopyingDirect, AwaitingBlockChecksum, Compressed,
        StoringCBlock, FlushingOut, BeforeSuffix, StoringSuffix, Finished, Fed, Place, SkipStage;
      go, r, pos', dstPtr' := true, Hint(1), pos, dstPtr;
      if stage == GetBlockHeader || stage == StoreBlockHeader {
        go, r, pos' := BlockHeaderStep(c, pos, dstPtr);
      } else if stage == CopyDirect {
        go, r, pos', dstPtr' := CopyDirectStep(c, pos, dstPtr);
      } else if stage == GetBlockChecksum {
        go, r, pos' := BlockChecksumStep(c, pos);
      } else if stage == FlushOut {
        go, r, dstPtr' := FlushStep(c, dstPtr);
      } else {
        go, r, pos', dstPtr' := CBlockStep(c, pos, dstPtr);
      }
    }

    /** One turn of the state machine. */
    method Step(c: Call, pos: nat, dstPtr: nat) returns (go: bool, r: Outcome, pos': nat, dstPtr': nat)
      requires StageOk() && Fed(c, pos) && RoomNow(c, dstPtr)
      modifies this`stage, this`info, this`remaining, this`tmpIn, this`tmpInSize, this`tmpInTarget, this`header, this`xxh, this`blockXxh, this`skipChecksum
      modifies this`n, this`h, this`p, this`hb, history
      ensures r.Hint? && Fed(c, pos') && RoomNow(c, dstPtr') && pos <= pos' && dstPtr <= dstPtr' && Grown(old(h), dstPtr, dstPtr')
      ensures go ==> StageOk() && (pos < pos' || (pos == pos' && Rank(stage) < Rank(old(stage))))
      ensures !go ==> Stopped(c, r, pos', dstPtr')
      ensures |history.mem| == |old(history.mem)|
      ensures BufferKept(old(history.tmpOutBuffer), old(history.maxBufferSize), c)
    {
      hide StageOk, Finished, Fed, Place, Stopped;
      go, r, pos', dstPtr' := true, Hint(1), pos, dstPtr;
      if BetweenFlushes() || stage == FlushOut {
        go, r, pos', dstPtr' := BlockStep(c, pos, dstPtr);
      } else if stage == GetFrameHeader || stage == StoreFrameHeader || stage == Init {
        go, r, pos' := OpeningStep(c, pos, dstPtr);
      } else {
        go, r, pos' := ClosingStep(c, pos, dstPtr);
      }
    }

    /** The stages behind the last block, and those of a skippable frame. */
    method ClosingStep(c: Call, pos: nat, ghost dstPtr: nat) returns (go: bool, r: Outcome, pos': nat)
      requires StageOk() && (stage == GetSuffix || stage == StoreSuffix || OfSkippable(stage)) && Fed(c, pos) && RoomNow(c, dstPtr)
      modifies this`stage, this`info, this`tmpIn, this`tmpInSize, this`tmpInTarget, this`header, this`skipChecksum, this`n, history`dict, history`dictSize
      ensures r.Hint? && Fed(c, pos') && RoomNow(c, dstPtr) && pos <= pos'
      ensures go ==> StageOk() && pos < pos'
      ensures !go ==> Stopped(c, r, pos', dstPtr)
    {
      hide AtStart, StoringHeader, HeaderRead, BetweenBlocks, StoringBlockHeader, CopyingDirect, AwaitingBlockChecksum, Compressed,
        StoringCBlock, FlushingOut, BeforeSuffix, StoringSuffix, Finished, Fed, Place, SkipStage;
      go := false;
      if OfSkippable(stage) {
        go, r, pos' := SkipFrame(c, pos);
      } else {
        r, pos' := SuffixStep(c, pos, dstPtr);
      }
    }

    /** The stages before the first block. */
    method OpeningStep(c: Call, pos: nat, ghost dstPtr: nat) returns (go: bool, r: Outcome, pos': nat)
      requires StageOk() && (stage == GetFrameHeader || stage == StoreFrameHeader || stage == Init) && Fed(c, pos) && Room(c, dstPtr)
      modifies this`info, this`remaining, this`stage, this`tmpIn, this`tmpInSize, this`tmpInTarget, this`header, this`xxh, this`n
      modifies history`tmpOutBuffer, history`maxBufferSize, history`tmpOut, history`tmpOutSize, history`tmpOutStart
      ensures r.Hint? && r.n > 0 && Fed(c, pos') && Room(c, dstPtr) && pos <= pos' && StageOk()
      ensures go ==> pos < pos' || (pos == pos' && Rank(stage) < Rank(old(stage)))
      ensures !go ==> Stopped(c, r, pos', dstPtr)
      ensures BufferKept(old(history.tmpOutBuffer), old(history.maxBufferSize), c)
    {
      hide AtStart, StoringHeader, HeaderRead, BetweenBlocks, Fed, Room, SkipStage;
      if stage == Init {
        InitStep(c, dstPtr);
        go, r, pos' := true, Hint(1), pos;
      } else {
        go, r, pos' := HeaderStep(c, pos);
      }
    }

    // ---------------------------------------------------------------- a call

    /** Once checksums are skipped, they are for the rest of the frame. */
    method SetOptions(skipChecksums: bool)
      requires StageOk()
      modifies this`skipChecksum
      ensures StageOk() && h == old(h)
    {
      hide At, InBlock, Data, Has, BufferFor, Opened, HeaderIs, Ready, HistoryOk, Buffers, SuffixAt, BlockAt, ReadLE32, Checksum, HeaderSize, SkipStage;
      hide History.Placed, History.WholeDict, History.FlushDict, History.Flushing;
      if BetweenFlushes() {
        SetBetween(skipChecksum || skipChecksums);
      } else {
        skipChecksum := skipChecksum || skipChecksums;
      }
    }

    method SetBetween(skip: bool)
      requires StageOk() && BetweenFlushes() && (skipChecksum ==> skip)
      modifies this`skipChecksum
      ensures StageOk() && h == old(h)
    {
      hide At, InBlock, Data, Has, BufferFor, Opened, HeaderIs, Ready, HistoryOk, Buffers, SuffixAt, BlockAt, ReadLE32, Checksum, HeaderSize, SkipStage;
      hide History.Placed, History.WholeDict, History.FlushDict, History.Flushing;
      skipChecksum := skip;
    }

    /** The dictionary is not in the caller's memory. */
    ghost predicate Anchored()
      reads this`stage, history`dict, history`dictSize, history`tmpOutBuffer, history`maxBufferSize
    {
      stage == StoreSuffix || (history.dict == 0 && history.dictSize == 0)
      || (history.dict == history.tmpOutBuffer && history.dictSize <= history.maxBufferSize && history.maxBufferSize > 0)
    }

    /** Stages of the blocks, other than a flush. */
    predicate BetweenFlushes()
      reads this`stage
    {
      stage == GetBlockHeader || stage == StoreBlockHeader || stage == CopyDirect || stage == GetBlockChecksum || stage == GetCBlock || stage == StoreCBlock
    }

    lemma BlockStage()
      requires StageOk() && BetweenFlushes()
      ensures Ready() && HistoryOk()
    {
      hide At, InBlock, Data, Has, Totals, BufferFor;
      hide History.Placed, History.WholeDict;
    }

    method PreserveBetween(ghost bufferEnd: nat)
      requires StageOk() && BetweenFlushes() && info.linked && history.dict != history.tmpOutBuffer && bufferEnd == history.tmpOutBuffer + history.maxBufferSize
      modifies history`mem, history`dict, history`dictSize, history`tmpOut
      ensures StageOk() && Anchored() && |history.mem| == |old(history.mem)| && Untouched(history.mem, old(history.mem), history.tmpOutBuffer, bufferEnd)
    {
      hide At, InBlock, Data, Has, Totals, BufferFor, Untouched;
      BlockStage();
      history.PreserveWhole(h, bufferEnd);
      history.WholeIs(h);
      hide History.WholeDict;
    }

    method PreserveFlush(ghost bufferEnd: nat)
      requires FlushingOut() && info.linked && history.dict != history.tmpOutBuffer && bufferEnd == history.tmpOutBuffer + history.maxBufferSize
      modifies history`mem, history`dict, history`dictSize
      ensures FlushingOut() && Anchored() && |history.mem| == |old(history.mem)| && Untouched(history.mem, old(history.mem), history.tmpOutBuffer, bufferEnd)
    {
      hide At, Totals, BufferFor, Untouched;
      hide History.FlushDict, History.Flushing;
      ghost var was, flushed, blockEnd := history.mem, history.tmpOut + history.tmpOutStart, history.tmpOut + history.tmpOutSize;
      history.FlushPlaceOf(hb, h, flushed, blockEnd);
      history.PreserveFlushing(hb, h, flushed, blockEnd);
      UntouchedWider(history.mem, was, history.tmpOutBuffer, history.tmpOut, history.tmpOutBuffer, bufferEnd);
      history.FlushingFrom(hb, h, flushed);
    }

    /** The output of the call stays. */
    lemma PlaceKept(c: Call, dstPtr: nat, was: seq<byte>, bufferEnd: nat)
      requires |history.mem| == |was| && Untouched(history.mem, was, history.tmpOutBuffer, bufferEnd) && bufferEnd == history.tmpOutBuffer + history.maxBufferSize
      requires DeliveredIn(was, c.from, dstPtr, h) && history.maxBufferSize > 0 && history.Outside(c.from, c.limit) && bufferEnd <= |was|
      requires c.from <= c.dstStart <= dstPtr <= c.dstEnd <= c.limit <= |history.mem| && (c.dstStart == 0 ==> c.dstEnd == 0)
      requires 0 < c.newBuffer && c.newBuffer + MAX_BUFFER <= |history.mem| && (c.limit < c.newBuffer || c.newBuffer + MAX_BUFFER < c.from)
      ensures Place(c, dstPtr)
    {
      hide DeliveredIn, Untouched;
      history.DeliveredKept(was, c.from, dstPtr, c.limit, h, history.tmpOutBuffer, bufferEnd);
    }

    lemma PlaceIs(c: Call, dstPtr: nat)
      requires Place(c, dstPtr)
      ensures c.from <= c.dstStart <= dstPtr <= c.dstEnd <= c.limit <= |history.mem| && (c.dstStart == 0 ==> c.dstEnd == 0)
      ensures history.maxBufferSize > 0 ==> history.Outside(c.from, c.limit)
      ensures DeliveredIn(history.mem, c.from, dstPtr, h)
      ensures 0 < c.newBuffer && c.newBuffer + MAX_BUFFER <= |history.mem| && (c.limit < c.newBuffer || c.newBuffer + MAX_BUFFER < c.from)
    {
      hide DeliveredIn;
    }

    /** Where the dictionary is, when it is not saved. */
    lemma NothingToSave()
      requires StageOk() && stage != GetSuffix
      requires !info.linked || history.dict == history.tmpOutBuffer || history.dict == 0 || (!BetweenFlushes() && stage != FlushOut)
      ensures Anchored()
    {
      hide At, InBlock, Data, Has, Totals, BufferFor, Opened, HeaderIs, SameEnd;
      hide History.Flushing;
    }

    lemma HasBuffer()
      requires StageOk() && (BetweenFlushes() || stage == FlushOut)
      ensures history.maxBufferSize > 0 && history.tmpOutBuffer + history.maxBufferSize <= |history.mem|
    {
      hide At, InBlock, Data, Has, Totals, BufferFor, SameEnd;
      hide History.Flushing, History.FlushDict, History.WholeDict;
    }

    /** At the end of a call: a dictionary that lies in the destination is saved in the decoder's
        buffer, unless the caller keeps the destination as it is. */
    method Preserve(c: Call, dstPtr: nat, stableDst: bool)
      requires StageOk() && stage != GetSuffix && Place(c, dstPtr)
      modifies history`mem, history`dict, history`dictSize, history`tmpOut
      ensures StageOk() && (!stableDst ==> Anchored()) && Place(c, dstPtr) && |history.mem| == |old(history.mem)|
      ensures stableDst ==> unchanged(history`mem, history`dict, history`dictSize)
    {
      hide AtStart, StoringHeader, HeaderRead, BetweenBlocks, StoringBlockHeader, CopyingDirect, AwaitingBlockChecksum, Compressed,
        StoringCBlock, FlushingOut, BeforeSuffix, StoringSuffix, Place, Untouched, DeliveredIn, Anchored;
      if info.linked && history.dict != history.tmpOutBuffer && history.dict != 0 && !stableDst && (BetweenFlushes() || stage == FlushOut) {
        ghost var was, bufferEnd := history.mem, history.tmpOutBuffer + history.maxBufferSize;
        PlaceIs(c, dstPtr);
        HasBuffer();
        if stage == FlushOut {
          PreserveFlush(bufferEnd);
        } else {
          PreserveBetween(bufferEnd);
        }
        PlaceKept(c, dstPtr, was, bufferEnd);
      } else if !stableDst {
        NothingToSave();
      }
    }

    // ------------------------------------------------------- what a call does

    lemma AtEnd(q: nat, hist: seq<byte>)
      requires At(q, hist)
      ensures hist <= content && q + BLOCK_HEADER_SIZE <= end
    {
      BlocksEnd(codec, info, x, q, hist);
    }

    lemma HeaderEnd(s: seq<byte>)
      requires Opened() && |x| >= HEADER_SIZE_MIN && !IsSkippable(x)
      ensures HeaderSize(x[4]) < end
    {
      hide Blocks, Checksum, ReadLE32;
      BlocksEnd(codec, InfoOf(x), x, HeaderSize(x[4]), []);
    }

    lemma OpenedSize()
      requires Opened()
      ensures HEADER_SIZE_MIN <= end <= |x|
    {
      hide Blocks, Checksum, ReadLE32;
      if !IsSkippable(x) {
        BlocksEnd(codec, InfoOf(x), x, HeaderSize(x[4]), []);
      }
    }

    lemma UpToRaw(copied: nat)
      requires InBlock(false) && BlockAt(info, x, p).Block? && copied <= |Data()| && h == hb + Data()[..copied]
      ensures h <= content && p + BLOCK_HEADER_SIZE + |Data()| + (if info.blockChecksum then CHECKSUM_SIZE else 0) < end
    {
      hide Checksum, ReadLE32, Blocks, At;
      BlockPlace();
      AfterRaw();
      AtEnd(BlockAt(info, x, p).next, hb + Data());
    }

    lemma UpToCompressed(next: nat)
      requires InBlock(true) && h == hb && next == BlockAt(info, x, p).next
      ensures h <= content && next < end
    {
      hide Blocks, At, BlockAt;
      var out := AfterCompressed();
      AtEnd(next, hb + out);
      assert h <= hb + out;
    }

    /** What is delivered is the beginning of the content, and unless the frame is done there is more
        to consume, or a block to be flushed. */
    lemma Ahead()
      requires StageOk() && stage != GetSuffix && (stage == SkipSkippable ==> tmpInTarget > 0)
      ensures h <= content && (stage != FlushOut ==> n < end)
    {
      hide At, InBlock, BlockAt, Data, Has, Totals, Ready, HistoryOk, Buffers, Opened, HeaderSize, Skipped, IsSkippable, ReadLE32, Checksum;
      hide History.FlushDict;
      match stage {
        case GetFrameHeader => OpenedSize();
        case StoreFrameHeader =>
          OpenedSize();
          if !IsSkippable(x) { HeaderEnd(x); }
        case Init => AtEnd(n, []);
        case FlushOut => FlushedPart();
        case StoreSuffix => SuffixEnd(n - tmpInSize);
        case GetSFrameSize =>
        case StoreSFrameSize =>
        case SkipSkippable =>
        case _ => AheadInBlocks();
      }
    }

    lemma AheadInBlocks()
      requires StageOk() && BetweenFlushes()
      ensures h <= content && n < end
    {
      hide At, InBlock, BlockAt, Data, Has, Totals, Ready, HistoryOk;
      match stage {
        case GetBlockHeader => AtEnd(n, h);
        case StoreBlockHeader => AtEnd(n - tmpInSize, h);
        case CopyDirect => BlockIn(false); UpToRaw(n - (p + BLOCK_HEADER_SIZE));
        case GetBlockChecksum => BlockIn(false); UpToRaw(|Data()|);
        case GetCBlock => BlockIn(true); UpToCompressed(BlockAt(info, x, p).next);
        case StoreCBlock => BlockIn(true); UpToCompressed(BlockAt(info, x, p).next);
      }
    }

    lemma BlockIn(compressed: bool)
      requires InBlock(compressed)
      ensures BlockAt(info, x, p).Block?
    {
    }

    lemma FlushedPart()
      requires FlushingOut()
      ensures h <= content
    {
      hide At, Totals;
      hide History.FlushDict;
      AtEnd(n, hb + Pending());
      BytesJoin(history.mem, history.tmpOut, history.tmpOut + history.tmpOutStart, history.tmpOut + history.tmpOutSize);
      assert h <= hb + Pending();
    }

    lemma SuffixEnd(a: nat)
      requires SuffixAt(info, x, a, h) == Some(end) && info.contentChecksum
      ensures a + CHECKSUM_SIZE == end
    {
    }

    /** LZ4F_decompress: on a well-formed frame a call never fails; it adds its output to what was
        delivered before, which is always a beginning of the content; and when it returns 0 the whole
        content is delivered and the input is consumed up to the frame's end and no further. A call
        that returns otherwise has used up its input or filled the destination. */
    method Decompress(c: Call, skipChecksums: bool, stableDst: bool) returns (r: Outcome, pos: nat, dstPtr: nat)
      requires StageOk() && Fed(c, 0) && RoomNow(c, c.dstStart)
      modifies this`stage, this`info, this`remaining, this`tmpIn, this`tmpInSize, this`tmpInTarget, this`header, this`xxh, this`blockXxh, this`skipChecksum
      modifies this`n, this`h, this`p, this`hb, history
      ensures r.Hint? && pos <= |c.src| && n == c.at + pos && c.dstStart <= dstPtr <= c.dstEnd <= |history.mem| == |old(history.mem)|
      ensures old(h) <= h <= content && history.mem[c.dstStart..dstPtr] == h[|old(h)|..]
      ensures r.n == 0 ==> Finished() && h == content && n == end
      ensures r.n != 0 ==> StageOk() && stage != GetSuffix && (pos == |c.src| || dstPtr == c.dstEnd) && (n < end || dstPtr == c.dstEnd)
      ensures !stableDst ==> Anchored()
      ensures stableDst || r.n == 0 ==> RoomNow(c, dstPtr)
      ensures BufferKept(old(history.tmpOutBuffer), old(history.maxBufferSize), c)
    {
      hide StageOk, Finished, Fed, Place, Anchored;
      SetOptions(skipChecksums);
      ghost var h0 := h;
      var go := true;
      r, pos, dstPtr := Hint(1), 0, c.dstStart;
      while go
        invariant r.Hint? && Fed(c, pos) && RoomNow(c, dstPtr) && Grown(h0, c.dstStart, dstPtr) && pos <= |c.src|
        invariant if go then StageOk() else Stopped(c, r, pos, dstPtr)
        invariant |history.mem| == |old(history.mem)|
        invariant BufferKept(old(history.tmpOutBuffer), old(history.maxBufferSize), c)
        decreases go, |c.src| - pos, Rank(stage)
      {
        FedInside(c, pos);
        go, r, pos, dstPtr := Step(c, pos, dstPtr);
        FedInside(c, pos);
      }
      FedAt(c, pos);
      if r.n == 0 {
        FinishedIs(c, dstPtr);
        DeliveredNow(c, h0, dstPtr);
        return;
      }
      Ahead();
      Preserve(c, dstPtr, stableDst);
      DeliveredNow(c, h0, dstPtr);
    }

    lemma FedAt(c: Call, pos: nat)
      requires Fed(c, pos)
      ensures pos <= |c.src| && n == c.at + pos
    {
    }

    lemma DeliveredNow(c: Call, h0: seq<byte>, dstPtr: nat)
      requires Place(c, dstPtr) && Grown(h0, c.dstStart, dstPtr)
      ensures c.dstStart <= dstPtr <= c.dstEnd <= |history.mem| && history.mem[c.dstStart..dstPtr] == h[|h0|..]
    {
    }

    lemma FinishedIs(c: Call, dstPtr: nat)
      requires Finished() && history.dict == 0 && history.dictSize == 0
      ensures h == content && n == end && Anchored() && stage == GetFrameHeader
    {
    }

    // ---------------------------------------------------------- between calls

    /** The memory m has the bytes of the decoder's buffer. */
    ghost predicate BufferIn(m: seq<byte>)
      reads history`mem, history`tmpOutBuffer, history`maxBufferSize
    {
      && |m| == |history.mem| && history.tmpOutBuffer + history.maxBufferSize <= |m|
      && Bytes(m, history.tmpOutBuffer, history.tmpOutBuffer + history.maxBufferSize)
         == Bytes(history.mem, history.tmpOutBuffer, history.tmpOutBuffer + history.maxBufferSize)
    }

    /** The caller does what it wants with its own memory. */
    method CallerWrites(m: seq<byte>)
      requires StageOk() && stage != GetSuffix && Anchored() && |m| == |history.mem| && (history.maxBufferSize > 0 ==> BufferIn(m))
      modifies history`mem
      ensures StageOk() && history.mem == m
    {
      hide BufferIn, AtStart, StoringHeader, HeaderRead, BetweenBlocks, StoringBlockHeader, CopyingDirect, AwaitingBlockChecksum, Compressed,
        StoringCBlock, FlushingOut, BeforeSuffix, StoringSuffix, SkipStage, Anchored, Ready, HistoryOk;
      if BetweenFlushes() {
        BlockStage();
        HasBuffer();
        WriteBetween(m);
      } else if stage == FlushOut {
        HasBuffer();
        WriteDuringFlush(m);
      } else {
        WriteElsewhere(m);
      }
    }

    method WriteElsewhere(m: seq<byte>)
      requires StageOk() && stage != GetSuffix && !BetweenFlushes() && stage != FlushOut && Anchored() && |m| == |history.mem|
      modifies history`mem
      ensures StageOk() && history.mem == m
    {
      hide Has, Totals, BufferFor, Opened, SuffixAt, HeaderSize, HeaderIs, IsSkippable, Skipped;
      history.mem := m;
    }

    method WriteBetween(m: seq<byte>)
      requires StageOk() && BetweenFlushes() && Ready() && HistoryOk() && Anchored() && history.maxBufferSize > 0 && BufferIn(m)
      modifies history`mem
      ensures StageOk() && history.mem == m
    {
      hide At, InBlock, Data, Has, Totals, BufferFor, SameEnd;
      ghost var bufferEnd, dictEnd := history.tmpOutBuffer + history.maxBufferSize, history.dict + history.dictSize;
      SameInside(m, history.mem, history.tmpOutBuffer, bufferEnd, history.dict, dictEnd);
      hide Bytes;
      history.mem := m;
    }

    method WriteDuringFlush(m: seq<byte>)
      requires FlushingOut() && Anchored() && stage == FlushOut && history.maxBufferSize > 0 && BufferIn(m)
      modifies history`mem
      ensures FlushingOut() && history.mem == m
    {
      hide At, Totals, BufferFor, SameEnd, Needed, RoomFor;
      ghost var b, bufferEnd, dictEnd := history.tmpOutBuffer, history.tmpOutBuffer + history.maxBufferSize, history.dict + history.dictSize;
      ghost var at, flushed, blockEnd := history.tmpOut, history.tmpOut + history.tmpOutStart, history.tmpOut + history.tmpOutSize;
      SameInside(m, history.mem, b, bufferEnd, history.dict, dictEnd);
      SameInside(m, history.mem, b, bufferEnd, at, flushed);
      SameInside(m, history.mem, b, bufferEnd, at, blockEnd);
      hide Bytes;
      history.mem := m;
    }

    /** The decoder's buffer lies where it was allocated. */
    lemma OwnBuffer()
      requires StageOk() || Leftover()
      ensures history.maxBufferSize == 0 || (history.maxBufferSize <= MAX_BUFFER && history.tmpOutBuffer + history.maxBufferSize <= |history.mem|)
    {
      hide At, InBlock, Data, Has, Totals, Opened, HeaderIs, HistoryOk, BlockAt, SuffixAt, ReadLE32, Checksum, HeaderSize;
      hide History.Flushing, History.FlushDict;
    }

    /** A destination apart from the decoder's buffer can be given to the next call. */
    lemma NextCall(c: Call)
      requires StageOk() && Anchored() && c.from == c.dstStart <= c.dstEnd == c.limit <= |history.mem| && (c.dstStart == 0 ==> c.dstEnd == 0)
      requires history.maxBufferSize == 0 || history.Outside(c.dstStart, c.dstEnd)
      requires 0 < c.newBuffer && c.newBuffer + MAX_BUFFER <= |history.mem|
      requires c.dstEnd < c.newBuffer || c.newBuffer + MAX_BUFFER < c.dstStart
      ensures RoomNow(c, c.dstStart)
    {
      hide StageOk;
    }

    /** A destination that goes on where the last one was filled, and whose bytes so far are kept. */
    lemma NextStable(c: Call, dstPtr: nat, c': Call)
      requires RoomNow(c, dstPtr) && c'.from == c.from && c'.limit == c.limit && c'.newBuffer == c.newBuffer
      requires c'.dstStart == dstPtr <= c'.dstEnd <= c'.limit && 0 < dstPtr
      ensures RoomNow(c', c'.dstStart)
    {
    }

    /** A new frame on a context that has none, or has finished one. */
    ghost method Start(x: seq<byte>, content: seq<byte>, end: nat)
      requires stage == GetFrameHeader && Leftover() && Frame(codec, x) == Some((content, end))
      modifies this`x, this`content, this`end, this`n, this`h
      ensures StageOk() && this.x == x && this.content == content && this.end == end && n == 0 && h == []
    {
      hide Frame;
      this.x, this.content, this.end, n, h := x, content, end, 0, [];
    }
  }

  /** A part of what is the same in two memories, or an empty part. */
  lemma SameInside(m: seq<byte>, was: seq<byte>, lo: nat, hi: nat, a: nat, b: nat)
    requires |m| == |was| && lo <= hi <= |m| && Bytes(m, lo, hi) == Bytes(was, lo, hi) && a <= b <= |m| && (a == b || lo <= a <= b <= hi)
    ensures Bytes(m, a, b) == Bytes(was, a, b)
  {
    if a < b {
      BytesInside(m, lo, hi, a, b);
      BytesInside(was, lo, hi, a, b);
    }
  }

  lemma NothingHeld(s: seq<byte>, x: seq<byte>, a: nat)
    requires a <= |x|
    ensures Has(s, 0, x, a)
  {
  }

  lemma HeldAll(s: seq<byte>, k: nat, x: seq<byte>, a: nat)
    requires Has(s, k, x, a)
    ensures k <= |s| && a + k <= |x| && s[..k] == x[a..a + k]
  {
  }

  lemma HeldWord(s: seq<byte>, x: seq<byte>, a: nat)
    requires Has(s, 4, x, a)
    ensures a + 4 <= |x| && |s| >= 4 && ReadLE32(s, 0) == ReadLE32(x, a)
  {
    assert s[0..4] == s[..4];
    ReadSame(s, 0, x, a);
  }
}
