/** The streaming compressor of LZ4 frames: input is collected in the compressor's buffer until there
    is a whole block, and the last 64 KB of it stay reachable for linked blocks. Memory is flat; the
    buffer and the caller's input are pieces of it. Output is returned. */
module FrameCompressor {
  import opened Lz4Block
  import opened Slices
  import opened Lz4Copy
  import opened FrameFormat
  import opened FrameDict
  import opened FrameEncoding

  /** What the k-th call of the block compressor makes of a block, with a dictionary; [] if it fails. */
  type BlockCompressor = (nat, seq<byte>, seq<byte>) -> seq<byte>

  ghost predicate EndsWith(h: seq<byte>, d: seq<byte>) {
    |d| <= |h| && h[|h| - |d|..] == d
  }

  /** Whatever end of the history is the dictionary, the decoder restores the block. */
  ghost predicate Sound(codec: Codec, compress: BlockCompressor) {
    forall k: nat, block: seq<byte>, dict: seq<byte>, h: seq<byte> ::
      EndsWith(h, dict) && compress(k, block, dict) != [] ==> codec(compress(k, block, dict), Last(h, WINDOW)) == Some(block)
  }

  /** The k-th call makes this block no smaller, without a dictionary or with an end of the history. */
  ghost predicate NoGain(compress: BlockCompressor, linked: bool, k: nat, h: seq<byte>, block: seq<byte>) {
    forall dict: seq<byte> :: dict == [] || (linked && EndsWith(h, dict)) ==> compress(k, block, dict) == [] || |compress(k, block, dict)| >= |block|
  }

  /** None of the blocks that are cut from the data gets smaller, from the k-th call on, after h. */
  ghost predicate NoneShrinks(compress: BlockCompressor, p: Preferences, k: nat, h: seq<byte>, data: seq<byte>)
    requires ValidPreferences(p)
    decreases |data|
  {
    var n := BlockSizeOf(p);
    if n <= |data| then NoGain(compress, p.linked, k, h, data[..n]) && NoneShrinks(compress, p, k + 1, h + data[..n], data[n..])
    else data == [] || !p.autoFlush || NoGain(compress, p.linked, k, h, data)
  }

  lemma FirstWhole(compress: BlockCompressor, p: Preferences, k: nat, h: seq<byte>, block: seq<byte>, rest: seq<byte>)
    requires ValidPreferences(p) && |block| == BlockSizeOf(p) && NoneShrinks(compress, p, k, h, block + rest)
    ensures NoGain(compress, p.linked, k, h, block) && NoneShrinks(compress, p, k + 1, h + block, rest)
  {
    assert (block + rest)[..|block|] == block && (block + rest)[|block|..] == rest;
  }

  datatype Failure = Uninitialized | DstTooSmall | FrameSizeWrong

  datatype Outcome = Ok(out: seq<byte>) | Error(e: Failure)

  lemma EndsWithItself(h: seq<byte>, d: seq<byte>)
    ensures EndsWith(h + d, d)
  {
  }

  lemma EndsWithMore(h: seq<byte>, d: seq<byte>, block: seq<byte>)
    requires EndsWith(h, d)
    ensures EndsWith(h + block, d + block)
  {
    var hb := h + block;
    assert hb[|hb| - |d + block|..] == h[|h| - |d|..] + block;
  }

  lemma EndsWithLess(h: seq<byte>, d: seq<byte>, e: seq<byte>)
    requires EndsWith(h, d) && EndsWith(d, e)
    ensures EndsWith(h, e)
  {
  }

  /** The end of a piece of memory. */
  lemma BytesEndsWith(m: seq<byte>, a: nat, b: nat, c: nat)
    requires a <= b <= c <= |m|
    ensures EndsWith(Bytes(m, a, c), Bytes(m, b, c))
  {
    BytesInside(m, a, c, b, c);
  }

  lemma EndTrimmed(h: seq<byte>, m: seq<byte>, a: nat, b: nat, c: nat)
    requires a <= b <= c <= |m| && EndsWith(h, Bytes(m, a, c))
    ensures EndsWith(h, Bytes(m, b, c))
  {
    BytesEndsWith(m, a, b, c);
    EndsWithLess(h, Bytes(m, a, c), Bytes(m, b, c));
  }

  /** A block in a frame: header, data, and checksum. */
  function BlockBytes(info: Info, compressed: bool, data: seq<byte>): seq<byte> {
    WriteLE32(if compressed then |data| else UNCOMPRESSED_FLAG + |data|) + data + (if info.blockChecksum then WriteLE32(Checksum(data)) else [])
  }

  lemma BlockReads(info: Info, compressed: bool, data: seq<byte>)
    requires 0 < |data| <= info.maxBlock < UNCOMPRESSED_FLAG
    ensures var s := BlockBytes(info, compressed, data); BlockAt(info, s, 0) == Block(compressed, data, |s|)
  {
    hide ReadLE32, WriteLE32, Checksum;
    var s := BlockBytes(info, compressed, data);
    var e := 4 + |data|;
    assert s[0..4] == WriteLE32(if compressed then |data| else UNCOMPRESSED_FLAG + |data|);
    ReadWritten32(s, 0, if compressed then |data| else UNCOMPRESSED_FLAG + |data|);
    assert s[4..e] == data;
    if info.blockChecksum {
      ChecksumRange(data);
      assert s[e..e + 4] == WriteLE32(Checksum(data));
      ReadWritten32(s, e, Checksum(data));
    }
  }

  // ------------------------------------------- what the block compressor adds

  /** A block, the call of the block compressor that it was given to, and the dictionary it came with. */
  datatype Step = Step(block: seq<byte>, k: nat, dict: seq<byte>)

  /** The block as it is written: compressed if that makes it smaller, as it is otherwise. */
  function StepBytes(compress: BlockCompressor, info: Info, step: Step): seq<byte> {
    var c := compress(step.k, step.block, step.dict);
    var smaller := c != [] && |c| < |step.block|;
    BlockBytes(info, smaller, if smaller then c else step.block)
  }

  /** A dictionary is an end of the history, and only linked blocks have one. */
  ghost predicate MayUse(info: Info, h: seq<byte>, dict: seq<byte>) {
    dict == [] || (info.linked && EndsWith(h, dict))
  }

  ghost predicate StepOk(info: Info, h: seq<byte>, step: Step) {
    0 < |step.block| <= info.maxBlock && MayUse(info, h, step.dict)
  }

  function RunBytes(compress: BlockCompressor, info: Info, steps: seq<Step>): seq<byte> {
    if steps == [] then [] else StepBytes(compress, info, steps[0]) + RunBytes(compress, info, steps[1..])
  }

  function RunData(steps: seq<Step>): seq<byte> {
    if steps == [] then [] else steps[0].block + RunData(steps[1..])
  }

  ghost predicate RunOk(info: Info, h: seq<byte>, steps: seq<Step>)
    decreases |steps|
  {
    steps == [] || (StepOk(info, h, steps[0]) && RunOk(info, h + steps[0].block, steps[1..]))
  }

  ghost predicate IsRun(compress: BlockCompressor, info: Info, steps: seq<Step>, out: seq<byte>, h0: seq<byte>, h1: seq<byte>) {
    RunOk(info, h0, steps) && out == RunBytes(compress, info, steps) && h1 == h0 + RunData(steps)
  }

  /** out takes the history from h0 to h1, block by block: each as the compressor makes it where that is
      smaller, and as it is where it is not. */
  ghost predicate Packed(compress: BlockCompressor, info: Info, out: seq<byte>, h0: seq<byte>, h1: seq<byte>) {
    exists steps: seq<Step> :: IsRun(compress, info, steps, out, h0, h1)
  }

  lemma {:induction false} RunAppend(compress: BlockCompressor, info: Info, a: seq<Step>, b: seq<Step>, h: seq<byte>)
    requires RunOk(info, h, a) && RunOk(info, h + RunData(a), b)
    ensures RunOk(info, h, a + b) && RunData(a + b) == RunData(a) + RunData(b)
    ensures RunBytes(compress, info, a + b) == RunBytes(compress, info, a) + RunBytes(compress, info, b)
  {
    hide StepOk, StepBytes;
    if a == [] {
      assert a + b == b && h + RunData(a) == h;
    } else {
      var rest, h' := a[1..], h + a[0].block;
      assert (a + b)[1..] == rest + b;
      Regroup(h, a[0].block, RunData(rest));
      RunAppend(compress, info, rest, b, h');
      Regroup(a[0].block, RunData(rest), RunData(b));
      Regroup(StepBytes(compress, info, a[0]), RunBytes(compress, info, rest), RunBytes(compress, info, b));
    }
  }

  lemma PackedJoin(compress: BlockCompressor, info: Info, a: seq<byte>, b: seq<byte>, h0: seq<byte>, h1: seq<byte>, h2: seq<byte>)
    requires Packed(compress, info, a, h0, h1) && Packed(compress, info, b, h1, h2)
    ensures Packed(compress, info, a + b, h0, h2)
  {
    hide RunOk, RunBytes, RunData;
    var s :| IsRun(compress, info, s, a, h0, h1);
    var t :| IsRun(compress, info, t, b, h1, h2);
    RunAppend(compress, info, s, t, h0);
    Regroup(h0, RunData(s), RunData(t));
    assert IsRun(compress, info, s + t, a + b, h0, h2);
  }

  lemma PackedNone(compress: BlockCompressor, info: Info, h: seq<byte>)
    ensures Packed(compress, info, [], h, h)
  {
    var none: seq<Step> := [];
    assert h + RunData(none) == h;
    assert IsRun(compress, info, none, [], h, h);
  }

  lemma PackedOne(compress: BlockCompressor, info: Info, h: seq<byte>, step: Step)
    requires StepOk(info, h, step)
    ensures Packed(compress, info, StepBytes(compress, info, step), h, h + step.block)
  {
    hide StepOk, StepBytes;
    var one := [step];
    assert one[1..] == [];
    var out := StepBytes(compress, info, step);
    assert RunBytes(compress, info, []) == [] && RunData([]) == [] && RunOk(info, h + step.block, []);
    assert out + [] == out && step.block + [] == step.block;
    assert RunOk(info, h, one) && RunBytes(compress, info, one) == out && RunData(one) == step.block;
    assert IsRun(compress, info, one, StepBytes(compress, info, step), h, h + step.block);
  }

  /** A whole frame: header, blocks, end mark and checksum. */
  ghost predicate PackedFrame(compress: BlockCompressor, p: Preferences, frame: seq<byte>, input: seq<byte>)
    requires ValidPreferences(p)
  {
    exists blocks: seq<byte> :: FrameOf(compress, p, frame, input, blocks)
  }

  ghost predicate FrameOf(compress: BlockCompressor, p: Preferences, frame: seq<byte>, input: seq<byte>, blocks: seq<byte>)
    requires ValidPreferences(p)
  {
    frame == Header(p) + blocks + Suffix(InfoFor(p), input) && Packed(compress, InfoFor(p), blocks, [], input)
  }

  /** One block is a run of blocks. */
  lemma OneBlock(codec: Codec, info: Info, compressed: bool, data: seq<byte>, history: seq<byte>, block: seq<byte>)
    requires 0 < |data| <= info.maxBlock < UNCOMPRESSED_FLAG && |block| <= info.maxBlock
    requires if compressed then codec(data, Window(info, history)) == Some(block) else data == block
    ensures Decoded(codec, info, BlockBytes(info, compressed, data), history) == Some(history + block)
  {
    hide BlockAt, Window, Checksum, WriteLE32;
    var s := BlockBytes(info, compressed, data);
    BlockReads(info, compressed, data);
    assert s[|s|..] == [];
    assert |s| >= 4;
  }

  lemma Times(a: nat, n: nat)
    ensures a * (n + 1) == a * n + a
  {
  }

  lemma Counted(src: nat, srcEnd: nat, srcPtr: nat, n: nat, size: nat)
    requires size > 0 && src <= srcPtr <= srcEnd && srcPtr - src == n * size && srcEnd - srcPtr < size
    ensures (srcEnd - src) / size == n && (srcEnd - src) % size == srcEnd - srcPtr
  {
    var d, q, r := srcEnd - src, (srcEnd - src) / size, (srcEnd - src) % size;
    assert d == q * size + r && d == n * size + (srcEnd - srcPtr);
    if q < n { Multiples(q, n, size); } else if n < q { Multiples(n, q, size); }
  }

  lemma Multiples(q: nat, n: nat, size: nat)
    requires q < n
    ensures q * size + size <= n * size
  {
    GrowsWeakly(size, q + 1, n);
  }

  const RENORM := 0x8000_0000

  /** What a buffer must hold at least. */
  function Required(prefs: Preferences): nat
    requires prefs.blockSizeId == 0 || 4 <= prefs.blockSizeId <= 7
  {
    if prefs.autoFlush then (if prefs.linked then WINDOW else 0)
    else BlockSizeOf(prefs) + (if prefs.linked then 2 * WINDOW else 0)
  }

  class Compressor {
    const codec: Codec
    const compress: BlockCompressor
    var mem: seq<byte>
    var prefs: Preferences
    var cStage: nat
    var tmpBuff: nat
    var maxBufferSize: nat
    var tmpIn: nat
    var tmpInSize: nat
    var totalInSize: nat
    var xxh: seq<byte>

    /** The block compressor's stream: its dictionary, and how often it was called. */
    var dictionary: nat
    var dictSize: nat
    var currentOffset: nat
    var calls: nat

    /** What was fed in, what the blocks written so far add up to, and those blocks. */
    ghost var input: seq<byte>
    ghost var h: seq<byte>
    ghost var sent: seq<byte>

    // ------------------------------------------------------------ invariants

    /** The dictionary is an end of what the blocks add up to. */
    ghost predicate DictOk()
      reads this`mem, this`dictionary, this`dictSize, this`currentOffset, this`h
    {
      && dictionary + dictSize <= |mem| && dictSize <= currentOffset <= RENORM
      && EndsWith(h, Bytes(mem, dictionary, dictionary + dictSize))
    }

    /** The dictionary lies in the buffer before the next block, or in the caller's memory. */
    ghost predicate DictPlaced()
      reads this`dictionary, this`dictSize, this`tmpBuff, this`maxBufferSize, this`tmpIn
    {
      dictSize == 0 || (tmpBuff <= dictionary && dictionary + dictSize <= tmpIn) || Apart(dictionary, dictionary + dictSize)
    }

    /** The dictionary is not in the caller's memory. */
    ghost predicate InTmp()
      reads this`prefs, this`dictionary, this`dictSize, this`tmpBuff, this`tmpIn
    {
      !prefs.linked || dictSize == 0 || (tmpBuff <= dictionary && dictionary + dictSize <= tmpIn)
    }

    /** A piece of memory that does not touch the compressor's buffer. */
    ghost predicate Apart(a: nat, b: nat)
      reads this`tmpBuff, this`maxBufferSize
    {
      b < tmpBuff || tmpBuff + maxBufferSize < a
    }

    /** The buffer's size, as LZ4F_compressBegin makes it. */
    ghost predicate BufferOk()
      reads this`mem, this`prefs, this`tmpBuff, this`maxBufferSize
    {
      && ValidPreferences(prefs) && tmpBuff + maxBufferSize <= |mem| && Required(prefs) <= maxBufferSize
    }

    /** Where input is collected. */
    ghost predicate TmpOk()
      reads this`mem, this`prefs, this`tmpBuff, this`maxBufferSize, this`tmpIn, this`tmpInSize
    {
      && BufferOk() && tmpBuff <= tmpIn <= tmpBuff + maxBufferSize
      && (if prefs.autoFlush then tmpInSize == 0
          else tmpInSize < BlockSizeOf(prefs) && tmpIn + BlockSizeOf(prefs) <= tmpBuff + maxBufferSize)
      && (!prefs.linked ==> tmpIn == tmpBuff)
    }

    ghost function Tmp(): seq<byte>
      requires tmpIn + tmpInSize <= |mem|
      reads this`mem, this`tmpIn, this`tmpInSize
    {
      Bytes(mem, tmpIn, tmpIn + tmpInSize)
    }

    /** What the blocks written add up to, followed by what is collected, is the input. */
    ghost predicate Sums()
      requires tmpIn + tmpInSize <= |mem|
      reads this`mem, this`prefs, this`tmpIn, this`tmpInSize, this`input, this`h, this`sent, this`xxh, this`totalInSize
    {
      && input == h + Tmp() && Codes(sent, [], h)
      && (prefs.contentChecksum ==> xxh == input) && (prefs.contentSize > 0 ==> totalInSize == |input| % U64_RANGE)
    }

    ghost predicate Streaming()
      reads this
    {
      cStage == 1 && TmpOk() && Sums() && (prefs.linked ==> DictOk() && DictPlaced()) && Sound(codec, compress)
    }

    /** Nothing is in progress. */
    ghost predicate Idle()
      reads this`mem, this`tmpBuff, this`maxBufferSize, this`cStage
    {
      cStage == 0 && tmpBuff + maxBufferSize <= |mem|
    }

    // ---------------------------------------------------- the block compressor

    /** LZ4_compress_fast_continue, up to the compression: offsets stay within 31 bits, and a
        dictionary that is tiny, or that the input overlaps, is cut. */
    method PrepareDict(src: nat, size: nat) returns (dictEnd: nat)
      requires DictOk() && size > 0 && src + size <= |mem| && size <= 0x40_0000
      modifies this`dictionary, this`dictSize, this`currentOffset
      ensures DictOk() && dictEnd == dictionary + dictSize && currentOffset + size <= RENORM
      ensures EndsWith(h, Bytes(mem, dictionary, dictEnd))
      ensures old(dictSize) >= 4 && old(dictionary + dictSize) == src && old(currentOffset) + size <= RENORM ==> dictionary == old(dictionary) && dictEnd == src
      ensures dictEnd == src ==> dictionary == src || (old(dictSize) > 0 && old(dictionary + dictSize) == src && dictionary >= old(dictionary))
    {
      hide EndsWith, Bytes;
      dictEnd := dictionary + dictSize;
      Trim(0, dictEnd);
      if currentOffset + size > RENORM {
        if dictSize > 65536 { Trim(dictSize - 65536, dictEnd); }
        currentOffset := 65536;
      }
      if dictSize < 4 && dictEnd != src {
        NoDict(h, src);
        dictSize, dictionary, dictEnd := 0, src, src;
      }
      var sourceEnd := src + size;
      if sourceEnd > dictionary && sourceEnd < dictEnd {
        var keep := dictEnd - sourceEnd;
        if keep > 65536 { keep := 65536; }
        if keep < 4 { keep := 0; }
        Trim(dictSize - keep, dictEnd);
      }
    }

    /** LZ4_compress_fast_continue: the dictionary is what came before, if it can be. */
    method Continue(src: nat, size: nat, ghost srcEnd: nat) returns (out: seq<byte>, ghost dict: seq<byte>)
      requires DictOk() && size > 0 && srcEnd == src + size <= |mem| && size <= 0x40_0000 && Sound(codec, compress)
      modifies this`dictionary, this`dictSize, this`currentOffset, this`calls
      ensures calls == old(calls) + 1
      ensures out != [] ==> codec(out, Last(h, WINDOW)) == Some(Bytes(mem, src, srcEnd))
      ensures dictSize > 0 && dictionary + dictSize == srcEnd && dictSize <= currentOffset <= RENORM
      ensures EndsWith(h + Bytes(mem, src, srcEnd), Bytes(mem, dictionary, srcEnd))
      ensures dictionary == src || (dictionary <= src && old(dictSize) > 0 && old(dictionary + dictSize) == src && dictionary >= old(dictionary))
      ensures EndsWith(h, dict) && out == compress(old(calls), Bytes(mem, src, srcEnd), dict)
      ensures old(dictSize) >= 4 && old(dictionary + dictSize) == src && old(currentOffset) + size <= RENORM ==> dict == Bytes(mem, old(dictionary), src)
    {
      hide EndsWith, Bytes, Last, Sound;
      var dictEnd := PrepareDict(src, size);
      ghost var block := Bytes(mem, src, srcEnd);
      out := compress(calls, Bytes(mem, src, src + size), Bytes(mem, dictionary, dictEnd));
      dict := Bytes(mem, dictionary, dictEnd);
      SoundIs(calls, block, Bytes(mem, dictionary, dictEnd), h);
      calls, currentOffset := calls + 1, currentOffset + size;
      if dictEnd == src {
        EndsWithMore(h, Bytes(mem, dictionary, dictEnd), block);
        BytesJoin(mem, dictionary, src, srcEnd);
        dictSize := dictSize + size;
      } else {
        EndsWithItself(h, block);
        dictionary, dictSize := src, size;
      }
    }

    /** The dictionary loses its first bytes. */
    method Trim(n: nat, dictEnd: nat)
      requires DictOk() && n <= dictSize && dictEnd == dictionary + dictSize
      modifies this`dictionary, this`dictSize
      ensures DictOk() && dictSize == old(dictSize) - n && dictionary == old(dictionary) + n && dictEnd == dictionary + dictSize
      ensures EndsWith(h, Bytes(mem, dictionary, dictEnd))
    {
      hide EndsWith, Bytes;
      var from := dictionary + n;
      EndTrimmed(h, mem, dictionary, from, dictEnd);
      dictionary, dictSize := from, dictSize - n;
      assert dictionary + dictSize == dictEnd;
    }

    lemma NoDict(h: seq<byte>, src: nat)
      requires src <= |mem|
      ensures EndsWith(h, Bytes(mem, src, src))
    {
    }

    // ----------------------------------------------------------------- a block

    /** The dictionary, for linked blocks. */
    ghost predicate Linked()
      reads this`mem, this`prefs, this`dictionary, this`dictSize, this`currentOffset, this`h, this`tmpBuff, this`maxBufferSize
    {
      prefs.linked ==> DictOk()
    }

    ghost predicate Settings()
      reads this`prefs
    {
      ValidPreferences(prefs) && Sound(codec, compress)
    }

    /** out is a run of blocks that takes the history from h0 to h1. */
    ghost predicate Codes(out: seq<byte>, h0: seq<byte>, h1: seq<byte>)
      reads this`prefs
    {
      && ValidPreferences(prefs) && Decoded(codec, InfoFor(prefs), out, h0) == Some(h1)
      && Packed(compress, InfoFor(prefs), out, h0, h1)
    }

    /** The dictionary that a block at src comes with: an end of the history, and all there is where nothing has to be cut off. */
    ghost predicate DictFor(dict: seq<byte>, h0: seq<byte>, src: nat, size: nat, dictionary0: nat, dictSize0: nat, offset0: nat)
      reads this`mem, this`prefs
    {
      && src <= |mem| && ValidPreferences(prefs) && MayUse(InfoFor(prefs), h0, dict)
      && (prefs.linked && dictSize0 >= 4 && dictionary0 + dictSize0 == src && offset0 + size <= RENORM ==> dict == Bytes(mem, dictionary0, src))
    }

    /** None of the blocks that are cut from the data gets smaller. */
    ghost predicate Whole(data: seq<byte>)
      reads this`prefs, this`calls, this`h
    {
      ValidPreferences(prefs) && NoneShrinks(compress, prefs, calls, h, data)
    }

    /** What a block takes besides its data. */
    function Overhead(): nat
      reads this`prefs
    {
      BLOCK_HEADER_SIZE + CHECKSUM_SIZE * Bit(prefs.blockChecksum)
    }

    /** The block [src, srcEnd) is compressed with the dictionary, if blocks are linked. */
    method CompressBlock(src: nat, size: nat, ghost srcEnd: nat) returns (out: seq<byte>, ghost dict: seq<byte>)
      requires Settings() && Linked() && 0 < size <= BlockSizeOf(prefs) && srcEnd == src + size <= |mem|
      modifies this`dictionary, this`dictSize, this`currentOffset, this`calls, this`h
      ensures out != [] ==> codec(out, Window(InfoFor(prefs), old(h))) == Some(Bytes(mem, src, srcEnd))
      ensures h == old(h) + Bytes(mem, src, srcEnd) && Linked()
      ensures prefs.linked ==> dictSize > 0 && dictionary + dictSize == srcEnd
      ensures prefs.linked ==>
        dictionary == src || (dictionary <= src && old(dictSize) > 0 && old(dictionary + dictSize) == src && dictionary >= old(dictionary))
      ensures calls == old(calls) + 1
      ensures out == compress(old(calls), Bytes(mem, src, srcEnd), dict)
      ensures DictFor(dict, old(h), src, size, old(dictionary), old(dictSize), old(currentOffset))
    {
      hide EndsWith, Last, Sound, Bytes;
      ghost var block := Bytes(mem, src, srcEnd);
      if prefs.linked {
        out, dict := Continue(src, size, srcEnd);
      } else {
        NoHistory();
        SoundIs(calls, block, [], []);
        out, dict := compress(calls, Bytes(mem, src, src + size), []), [];
        calls := calls + 1;
      }
      h := h + block;
    }

    lemma NoHistory()
      ensures EndsWith([], []) && Last([], WINDOW) == []
    {
    }

    lemma SoundIs(k: nat, block: seq<byte>, dict: seq<byte>, hist: seq<byte>)
      requires Sound(codec, compress) && EndsWith(hist, dict)
      ensures compress(k, block, dict) != [] ==> codec(compress(k, block, dict), Last(hist, WINDOW)) == Some(block)
    {
    }

    /** LZ4F_makeBlock: compressed if that makes the block smaller, as it is otherwise. */
    method MakeBlock(src: nat, size: nat, ghost srcEnd: nat) returns (out: seq<byte>, ghost dict: seq<byte>)
      requires Settings() && Linked() && 0 < size <= BlockSizeOf(prefs) && srcEnd == src + size <= |mem|
      modifies this`dictionary, this`dictSize, this`currentOffset, this`calls, this`h
      ensures Codes(out, old(h), h) && |out| <= Overhead() + size
      ensures h == old(h) + Bytes(mem, src, srcEnd) && Linked()
      ensures prefs.linked ==> dictSize > 0 && dictionary + dictSize == srcEnd
      ensures prefs.linked ==>
        dictionary == src || (dictionary <= src && old(dictSize) > 0 && old(dictionary + dictSize) == src && dictionary >= old(dictionary))
      ensures calls == old(calls) + 1 && (NoGain(compress, prefs.linked, old(calls), old(h), Bytes(mem, src, srcEnd)) ==> |out| == Overhead() + size)
      ensures DictFor(dict, old(h), src, size, old(dictionary), old(dictSize), old(currentOffset))
      ensures out == StepBytes(compress, InfoFor(prefs), Step(Bytes(mem, src, srcEnd), old(calls), dict))
    {
      hide EndsWith, Last, Sound, Window, Decoded, Checksum, WriteLE32, DictOk, Packed;
      var c;
      c, dict := CompressBlock(src, size, srcEnd);
      PackedOne(compress, InfoFor(prefs), old(h), Step(Bytes(mem, src, srcEnd), old(calls), dict));
      var block := mem[src..src + size];
      var compressed := !(c == [] || |c| >= size);
      var data := if compressed then c else block;
      out := WriteLE32(if compressed then |data| else UNCOMPRESSED_FLAG + |data|) + data;
      if prefs.blockChecksum { out := out + WriteLE32(Checksum(data)); }
      assert out == BlockBytes(InfoFor(prefs), compressed, data);
      OneBlock(codec, InfoFor(prefs), compressed, data, old(h), block);
    }

    lemma Joined(a: seq<byte>, b: seq<byte>, h0: seq<byte>, h1: seq<byte>, h2: seq<byte>)
      requires Codes(a, h0, h1) && Codes(b, h1, h2)
      ensures Codes(a + b, h0, h2)
    {
      DecodedAppend(codec, InfoFor(prefs), a, b, h0, h1);
      PackedJoin(compress, InfoFor(prefs), a, b, h0, h1, h2);
    }

    /** Full blocks, straight from the input. */
    method FullBlocks(src: nat, srcEnd: nat) returns (out: seq<byte>, srcPtr: nat)
      requires Settings() && Linked() && src <= srcEnd <= |mem|
      modifies this`dictionary, this`dictSize, this`currentOffset, this`calls, this`h
      ensures src <= srcPtr <= srcEnd && srcEnd - srcPtr == (srcEnd - src) % BlockSizeOf(prefs)
      ensures Codes(out, old(h), h) && |out| <= (Overhead() + BlockSizeOf(prefs)) * ((srcEnd - src) / BlockSizeOf(prefs))
      ensures h == old(h) + Bytes(mem, src, srcPtr) && Linked()
      ensures srcPtr == src ==> dictionary == old(dictionary) && dictSize == old(dictSize)
      ensures srcPtr > src && prefs.linked ==> FromSource(src, srcPtr, old(dictionary), old(dictSize))
      ensures old(Whole(Bytes(mem, src, srcEnd))) ==>
        |out| == (Overhead() + BlockSizeOf(prefs)) * ((srcEnd - src) / BlockSizeOf(prefs)) && Whole(Bytes(mem, srcPtr, srcEnd))
    {
      hide Codes, DictOk, Bytes, Settings, Linked, FromSource, Overhead, Whole;
      Nothing(src);
      out, srcPtr := [], src;
      var blockSize := SizeOfBlocks();
      ghost var n, most, unit := 0, 0, Overhead() + blockSize;
      while srcEnd - srcPtr >= blockSize
        invariant src <= srcPtr <= srcEnd && srcPtr - src == n * blockSize && n >= 0
        invariant Codes(out, old(h), h) && |out| <= most == unit * n
        invariant old(Whole(Bytes(mem, src, srcEnd))) ==> |out| == most && Whole(Bytes(mem, srcPtr, srcEnd))
        invariant h == old(h) + Bytes(mem, src, srcPtr) && Linked()
        invariant srcPtr == src ==> dictionary == old(dictionary) && dictSize == old(dictSize)
        invariant srcPtr > src && prefs.linked ==> FromSource(src, srcPtr, old(dictionary), old(dictSize))
      {
        ghost var out1 := out;
        var part, next := NextBlock(src, srcPtr, blockSize, old(dictionary), old(dictSize), out, old(h), srcEnd);
        out := out + part;
        Times(unit, n);
        Times(blockSize, n);
        srcPtr, n, most := next, n + 1, most + unit;
      }
      Counted(src, srcEnd, srcPtr, n, blockSize);
    }

    lemma Nothing(src: nat)
      requires src <= |mem| && Settings()
      ensures h == h + Bytes(mem, src, src) && Codes([], h, h)
    {
      PackedNone(compress, InfoFor(prefs), h);
    }

    function SizeOfBlocks(): (n: nat)
      requires Settings()
      reads this`prefs
      ensures n == BlockSizeOf(prefs) > 0
    {
      BlockSizeOf(prefs)
    }

    /** One more block of the input. */
    method AddBlock(ghost src: nat, srcPtr: nat, size: nat, ghost next: nat, ghost dictionary0: nat, ghost dictSize0: nat, ghost before: seq<byte>, ghost h0: seq<byte>)
        returns (part: seq<byte>)
      requires Settings() && Linked() && src <= srcPtr && next == srcPtr + size <= |mem| && 0 < size <= BlockSizeOf(prefs)
      requires Codes(before, h0, h) && h == h0 + Bytes(mem, src, srcPtr)
      requires if srcPtr == src then dictionary == dictionary0 && dictSize == dictSize0
               else prefs.linked ==> FromSource(src, srcPtr, dictionary0, dictSize0)
      modifies this`dictionary, this`dictSize, this`currentOffset, this`calls, this`h
      ensures |part| <= Overhead() + size && Linked() && h == old(h) + Bytes(mem, srcPtr, next) && calls == old(calls) + 1
      ensures Codes(before + part, h0, h) && h == h0 + Bytes(mem, src, next)
      ensures prefs.linked ==> FromSource(src, next, dictionary0, dictSize0)
      ensures NoGain(compress, prefs.linked, old(calls), old(h), Bytes(mem, srcPtr, next)) ==> |part| == Overhead() + size
    {
      hide Codes, DictOk, Bytes, Linked, Sound, ValidPreferences, NoGain, Overhead;
      ghost var h1 := h;
      ghost var dict;
      part, dict := MakeBlock(srcPtr, size, next);
      Joined(before, part, h0, h1, h);
      BytesJoin(mem, src, srcPtr, next);
      Regroup(h0, Bytes(mem, src, srcPtr), Bytes(mem, srcPtr, next));
    }

    /** One of the full blocks. */
    method NextBlock(ghost src: nat, srcPtr: nat, blockSize: nat, ghost dictionary0: nat, ghost dictSize0: nat, ghost before: seq<byte>, ghost h0: seq<byte>, ghost srcEnd: nat)
        returns (part: seq<byte>, next: nat)
      requires Settings() && Linked() && src <= srcPtr && srcPtr + blockSize <= srcEnd <= |mem| && blockSize == BlockSizeOf(prefs)
      requires Codes(before, h0, h) && h == h0 + Bytes(mem, src, srcPtr)
      requires if srcPtr == src then dictionary == dictionary0 && dictSize == dictSize0
               else prefs.linked ==> FromSource(src, srcPtr, dictionary0, dictSize0)
      modifies this`dictionary, this`dictSize, this`currentOffset, this`calls, this`h
      ensures next == srcPtr + blockSize && |part| <= Overhead() + blockSize && Linked()
      ensures Codes(before + part, h0, h) && h == h0 + Bytes(mem, src, next)
      ensures prefs.linked ==> FromSource(src, next, dictionary0, dictSize0)
      ensures old(Whole(Bytes(mem, srcPtr, srcEnd))) ==> |part| == Overhead() + blockSize && Whole(Bytes(mem, next, srcEnd))
    {
      hide Codes, DictOk, Bytes, Linked, Sound, NoneShrinks, NoGain, FromSource, Overhead;
      next := srcPtr + blockSize;
      if Whole(Bytes(mem, srcPtr, srcEnd)) { WholeParts(srcPtr, next, srcEnd); }
      part := AddBlock(src, srcPtr, blockSize, next, dictionary0, dictSize0, before, h0);
    }

    /** The first block of the data, and the others after it. */
    lemma WholeParts(a: nat, b: nat, c: nat)
      requires ValidPreferences(prefs) && a < b <= c <= |mem| && b - a == BlockSizeOf(prefs) && Whole(Bytes(mem, a, c))
      ensures NoGain(compress, prefs.linked, calls, h, Bytes(mem, a, b))
      ensures NoneShrinks(compress, prefs, calls + 1, h + Bytes(mem, a, b), Bytes(mem, b, c))
    {
      BytesJoin(mem, a, b, c);
      FirstWhole(compress, prefs, calls, h, Bytes(mem, a, b), Bytes(mem, b, c));
    }

    /** The dictionary ends where the input was read up to, and starts in it, or goes on from before. */
    ghost predicate FromSource(src: nat, srcPtr: nat, dictionary0: nat, dictSize0: nat)
      reads this`dictionary, this`dictSize
    {
      && dictSize > 0 && dictionary + dictSize == srcPtr
      && (src <= dictionary || (dictSize0 > 0 && dictionary0 + dictSize0 == src && dictionary0 <= dictionary))
    }

    /** Full blocks, and with autoFlush what remains. */
    method FromInput(src: nat, srcEnd: nat) returns (out: seq<byte>, srcPtr: nat)
      requires Settings() && Linked() && src <= srcEnd <= |mem|
      modifies this`dictionary, this`dictSize, this`currentOffset, this`calls, this`h
      ensures src <= srcPtr <= srcEnd && h == old(h) + Bytes(mem, src, srcPtr) && Linked() && Codes(out, old(h), h)
      ensures srcEnd - srcPtr == if prefs.autoFlush then 0 else (srcEnd - src) % BlockSizeOf(prefs)
      ensures RestSize(|out|, srcEnd - src, old(Whole(Bytes(mem, src, srcEnd))))
      ensures srcPtr == src ==> dictionary == old(dictionary) && dictSize == old(dictSize)
      ensures srcPtr > src && prefs.linked ==> FromSource(src, srcPtr, old(dictionary), old(dictSize))
    {
      hide Codes, DictOk, Bytes, Linked, Sound, ValidPreferences, NoGain, Whole, FromSource, Took, Overhead;
      out, srcPtr := FullBlocks(src, srcEnd);
      ghost var full := (srcEnd - src) / SizeOfBlocks();
      TookFull(full);
      if prefs.autoFlush && srcPtr < srcEnd {
        if Whole(Bytes(mem, srcPtr, srcEnd)) { LastWhole(Bytes(mem, srcPtr, srcEnd)); }
        var part := AddBlock(src, srcPtr, srcEnd - srcPtr, srcEnd, old(dictionary), old(dictSize), out, old(h));
        out := out + part;
        TookLast(full, srcEnd - srcPtr);
        srcPtr := srcEnd;
      }
    }

    /** The most that some full blocks and a last one take. */
    ghost function Took(full: nat, last: nat): nat
      requires ValidPreferences(prefs)
      reads this`prefs
    {
      BlocksSize(prefs, BlockSizeOf(prefs), full, last)
    }

    lemma LastWhole(data: seq<byte>)
      requires Whole(data) && 0 < |data| < BlockSizeOf(prefs) && prefs.autoFlush
      ensures NoGain(compress, prefs.linked, calls, h, data)
    {
    }

    /** What so many bytes of input take, and exactly that when no block gets smaller. */
    ghost predicate RestSize(n: nat, rest: nat, whole: bool)
      requires ValidPreferences(prefs)
      reads this`prefs
    {
      var most := Took(rest / BlockSizeOf(prefs), if prefs.autoFlush then rest % BlockSizeOf(prefs) else 0);
      n <= most && (whole ==> n == most)
    }

    /** The output of an update leaves room in the worst case for the end of the frame, and is as large
        as can be when no block gets smaller. */
    ghost predicate OutputSize(n: nat, srcSize: nat, buffered: nat, whole: bool)
      requires ValidPreferences(prefs)
      reads this`prefs
    {
      n + EndSize() <= WorstCase(srcSize, prefs, buffered) && (whole ==> n == UpdateSize(srcSize, prefs, buffered))
    }

    /** One block completed in the buffer. */
    ghost predicate FirstSize(n: nat, whole: bool)
      requires ValidPreferences(prefs)
      reads this`prefs
    {
      n <= Overhead() + BlockSizeOf(prefs) && (whole ==> n == Overhead() + BlockSizeOf(prefs))
    }

    lemma TookFull(full: nat)
      requires ValidPreferences(prefs)
      ensures Took(full, 0) == (Overhead() + BlockSizeOf(prefs)) * full
    {
    }

    lemma TookLast(full: nat, last: nat)
      requires ValidPreferences(prefs) && last > 0
      ensures Took(full, last) == Took(full, 0) + Overhead() + last
    {
      Times(Overhead(), full);
    }

    // ------------------------------------------------------------- the buffer

    /** LZ4_saveDict into the compressor's buffer. */
    method SaveDict(ghost buffEnd: nat) returns (kept: nat)
      requires DictOk() && buffEnd == tmpBuff + maxBufferSize <= |mem| && WINDOW <= maxBufferSize
      modifies this`mem, this`dictionary, this`dictSize
      ensures DictOk() && dictionary == tmpBuff && dictSize == kept <= WINDOW
      ensures |mem| == |old(mem)| && Untouched(mem, old(mem), tmpBuff, buffEnd)
    {
      hide EndsWith, Bytes, Copied, Untouched;
      kept := if dictSize < WINDOW then dictSize else WINDOW;
      var dictEnd := dictionary + dictSize;
      Trim(dictSize - kept, dictEnd);
      ghost var was, e := mem, tmpBuff + kept;
      CopiedParts(mem, tmpBuff, dictionary, kept, e, dictEnd);
      mem := Copied(mem, tmpBuff, dictionary, kept);
      UntouchedWider(mem, was, tmpBuff, e, tmpBuff, buffEnd);
      dictionary, dictSize := tmpBuff, kept;
    }

    /** Input is collected behind tmpIn. */
    method Collect(src: nat, size: nat, ghost srcEnd: nat, ghost tmpEnd: nat, ghost buffEnd: nat)
      requires buffEnd == tmpBuff + maxBufferSize <= |mem| && tmpBuff <= tmpIn && tmpEnd == tmpIn + tmpInSize && tmpEnd + size <= buffEnd
      requires srcEnd == src + size <= |mem| && Apart(src, srcEnd) && (prefs.linked ==> DictOk() && DictPlaced())
      modifies this`mem, this`tmpInSize
      ensures |mem| == |old(mem)| && Untouched(mem, old(mem), tmpBuff, buffEnd) && (prefs.linked ==> DictOk() && DictPlaced())
      ensures tmpInSize == old(tmpInSize) + size && Tmp() == old(Tmp()) + Bytes(old(mem), src, srcEnd)
    {
      hide EndsWith, Bytes, Copied, Untouched;
      ghost var was, next := mem, tmpEnd + size;
      CopiedParts(mem, tmpEnd, src, size, next, srcEnd);
      mem := Copied(mem, tmpIn + tmpInSize, src, size);
      BytesKept(mem, was, tmpEnd, next, tmpIn, tmpEnd);
      BytesJoin(mem, tmpIn, tmpEnd, next);
      if prefs.linked {
        ghost var dictEnd := dictionary + dictSize;
        if dictSize == 0 {
          NoBytes(was, dictionary, mem, dictionary);
        } else {
          BytesKept(mem, was, tmpEnd, next, dictionary, dictEnd);
        }
      }
      UntouchedWider(mem, was, tmpEnd, next, tmpBuff, buffEnd);
      tmpInSize := tmpInSize + size;
      assert tmpIn + tmpInSize == next;
    }

    /** Between the steps of an update. */
    ghost predicate Mid()
      reads this`mem, this`prefs, this`tmpBuff, this`maxBufferSize, this`tmpIn, this`tmpInSize, this`dictionary, this`dictSize, this`currentOffset, this`h
    {
      && BufferOk() && Settings() && tmpBuff <= tmpIn && tmpIn + tmpInSize <= tmpBuff + maxBufferSize
      && (prefs.autoFlush ==> tmpInSize == 0) && (!prefs.linked ==> tmpIn == tmpBuff)
      && (prefs.linked ==> DictOk() && DictPlaced())
    }

    /** Room for the next block. */
    ghost predicate Fits()
      reads this`prefs, this`tmpBuff, this`maxBufferSize, this`tmpIn
      requires ValidPreferences(prefs)
    {
      prefs.autoFlush || tmpIn + BlockSizeOf(prefs) <= tmpBuff + maxBufferSize
    }

    /** The buffer is completed to a block and compressed, if there is input enough. */
    method CompleteTmp(src: nat, srcEnd: nat, ghost buffEnd: nat) returns (out: seq<byte>, srcPtr: nat)
      requires Mid() && Fits() && 0 < tmpInSize < BlockSizeOf(prefs) && src <= srcEnd <= |mem| && Apart(src, srcEnd) && buffEnd == tmpBuff + maxBufferSize
      modifies this`mem, this`tmpIn, this`tmpInSize, this`dictionary, this`dictSize, this`currentOffset, this`calls, this`h
      ensures Mid() && src <= srcPtr <= srcEnd && Codes(out, old(h), h)
      ensures h + Tmp() == old(h + Tmp()) + Bytes(old(mem), src, srcPtr)
      ensures |mem| == |old(mem)| && Untouched(mem, old(mem), tmpBuff, buffEnd)
      ensures if srcEnd - src < BlockSizeOf(prefs) - old(tmpInSize)
              then srcPtr == srcEnd && out == [] && tmpInSize == old(tmpInSize) + (srcEnd - src) && Fits()
              else srcPtr - src == BlockSizeOf(prefs) - old(tmpInSize) && tmpInSize == 0 && FirstSize(|out|, old(Whole(Tmp() + Bytes(mem, src, srcEnd))))
      ensures old(Whole(Tmp() + Bytes(mem, src, srcEnd))) ==> Whole(Bytes(mem, srcPtr, srcEnd))
      ensures old(InTmp()) ==> InTmp()
    {
      hide DictOk, Bytes, Codes, Sound, Untouched, FirstSize, Whole, ValidPreferences, BlockSizeOf;
      var sizeToCopy := SizeOfBlocks() - tmpInSize;
      ghost var tmpEnd := tmpIn + tmpInSize;
      if sizeToCopy > srcEnd - src {
        Collect(src, srcEnd - src, srcEnd, tmpEnd, buffEnd);
        srcPtr, out := srcEnd, [];
        CodesNone();
        WholeNone(srcEnd);
        Regroup(h, old(Tmp()), Bytes(old(mem), src, srcEnd));
      } else {
        srcPtr := src + sizeToCopy;
        out := CompleteBlock(src, sizeToCopy, srcPtr, srcEnd, buffEnd);
      }
    }

    /** There is enough for a block. */
    method CompleteBlock(src: nat, sizeToCopy: nat, ghost srcPtr: nat, ghost srcEnd: nat, ghost buffEnd: nat) returns (out: seq<byte>)
      requires Mid() && Fits() && 0 < tmpInSize && srcPtr == src + sizeToCopy <= srcEnd <= |mem| && tmpInSize + sizeToCopy == BlockSizeOf(prefs)
      requires Apart(src, srcEnd) && buffEnd == tmpBuff + maxBufferSize
      modifies this`mem, this`tmpIn, this`tmpInSize, this`dictionary, this`dictSize, this`currentOffset, this`calls, this`h
      ensures Mid() && Codes(out, old(h), h) && tmpInSize == 0 && h + Tmp() == old(h + Tmp()) + Bytes(old(mem), src, srcPtr)
      ensures |mem| == |old(mem)| && Untouched(mem, old(mem), tmpBuff, buffEnd)
      ensures FirstSize(|out|, old(Whole(Tmp() + Bytes(mem, src, srcEnd))))
      ensures old(Whole(Tmp() + Bytes(mem, src, srcEnd))) ==> Whole(Bytes(mem, srcPtr, srcEnd))
      ensures old(InTmp()) ==> InTmp()
    {
      hide DictOk, Bytes, Codes, Sound, Untouched, NoGain, NoneShrinks, DictPlaced, InTmp;
      ApartPart(src, srcEnd, src, srcPtr);
      ApartPart(src, srcEnd, srcPtr, srcEnd);
      if Whole(Tmp() + Bytes(mem, src, srcEnd)) { WholeTmp(src, srcPtr, srcEnd); }
      ghost var was, h1, tmp := mem, h, Tmp();
      Collect(src, sizeToCopy, srcPtr, tmpIn + tmpInSize, buffEnd);
      BytesKept(mem, was, tmpBuff, buffEnd, srcPtr, srcEnd);
      out := CompressTmp();
      Regroup(h1, tmp, Bytes(was, src, srcPtr));
      TmpEmpty();
    }

    lemma WholeNone(a: nat)
      requires a <= |mem| && ValidPreferences(prefs)
      ensures Whole(Bytes(mem, a, a))
    {
    }

    /** The block that is completed in the buffer, and the others after it. */
    lemma WholeTmp(a: nat, b: nat, c: nat)
      requires ValidPreferences(prefs) && tmpIn + tmpInSize <= |mem| && a <= b <= c <= |mem| && tmpInSize + (b - a) == BlockSizeOf(prefs)
      requires Whole(Tmp() + Bytes(mem, a, c))
      ensures NoGain(compress, prefs.linked, calls, h, Tmp() + Bytes(mem, a, b))
      ensures NoneShrinks(compress, prefs, calls + 1, h + (Tmp() + Bytes(mem, a, b)), Bytes(mem, b, c))
    {
      BytesJoin(mem, a, b, c);
      Regroup(Tmp(), Bytes(mem, a, b), Bytes(mem, b, c));
      FirstWhole(compress, prefs, calls, h, Tmp() + Bytes(mem, a, b), Bytes(mem, b, c));
    }

    /** What is collected becomes a block. */
    method CompressTmp() returns (out: seq<byte>)
      requires Mid() && 0 < tmpInSize <= BlockSizeOf(prefs)
      modifies this`tmpIn, this`tmpInSize, this`dictionary, this`dictSize, this`currentOffset, this`calls, this`h
      ensures Mid() && tmpInSize == 0 && h == old(h + Tmp()) && Codes(out, old(h), h) && |out| <= Overhead() + old(tmpInSize)
      ensures old(InTmp()) ==> InTmp()
      ensures calls == old(calls) + 1 && (NoGain(compress, prefs.linked, old(calls), old(h), old(Tmp())) ==> |out| == Overhead() + old(tmpInSize))
    {
      hide DictOk, Bytes, Codes, Sound;
      ghost var dict;
      out, dict := MakeBlock(tmpIn, tmpInSize, tmpIn + tmpInSize);
      if prefs.linked { tmpIn := tmpIn + tmpInSize; }
      tmpInSize := 0;
    }

    lemma TmpEmpty()
      requires tmpInSize == 0 && tmpIn <= |mem|
      ensures h + Tmp() == h
    {
    }

    lemma CodesNone()
      requires Settings()
      ensures Codes([], h, h)
    {
      PackedNone(compress, InfoFor(prefs), h);
    }

    lemma ApartPart(a: nat, b: nat, a': nat, b': nat)
      requires Apart(a, b) && a <= a' && b' <= b
      ensures Apart(a', b')
    {
    }

    /** The dictionary came from the input. */
    lemma FromSourceApart(src: nat, srcPtr: nat, srcEnd: nat, dictionary0: nat, dictSize0: nat)
      requires FromSource(src, srcPtr, dictionary0, dictSize0) && Apart(src, srcEnd) && src <= srcPtr <= srcEnd
      requires dictSize0 > 0 ==> (tmpBuff <= dictionary0 && dictionary0 + dictSize0 <= tmpBuff + maxBufferSize) || Apart(dictionary0, dictionary0 + dictSize0)
      ensures Apart(dictionary, dictionary + dictSize)
    {
    }

    /** What an update does at its end: the dictionary is saved, unless the input stays, and there is
        room for a block again. */
    method Retain(fromSrc: bool, stableSrc: bool, ghost buffEnd: nat)
      requires BufferOk() && Settings() && tmpBuff <= tmpIn && tmpIn + tmpInSize <= buffEnd && buffEnd == tmpBuff + maxBufferSize
      requires (prefs.autoFlush ==> tmpInSize == 0) && (!prefs.linked ==> tmpIn == tmpBuff) && (prefs.linked ==> DictOk())
      requires prefs.linked ==> if fromSrc then Apart(dictionary, dictionary + dictSize) else DictPlaced()
      requires tmpInSize > 0 ==> !fromSrc && Fits()
      modifies this`mem, this`tmpIn, this`dictionary, this`dictSize
      ensures Mid() && Fits() && |mem| == |old(mem)| && Untouched(mem, old(mem), tmpBuff, buffEnd)
      ensures tmpInSize > 0 ==> mem == old(mem) && tmpIn == old(tmpIn)
      ensures !stableSrc && (fromSrc || old(InTmp())) ==> InTmp()
    {
      hide DictOk, Sound, Untouched;
      UntouchedSame(mem, tmpBuff, buffEnd);
      if prefs.linked && fromSrc {
        if stableSrc {
          tmpIn := tmpBuff;
        } else {
          var realDictSize := SaveDict(buffEnd);
          tmpIn := tmpBuff + realDictSize;
        }
      }
      if !prefs.autoFlush && tmpIn + BlockSizeOf(prefs) > tmpBuff + maxBufferSize {
        ghost var was, mid := old(mem), mem;
        var realDictSize := SaveDict(buffEnd);
        tmpIn := tmpBuff + realDictSize;
        UntouchedTwice(was, mid, mem, tmpBuff, buffEnd);
      }
    }

    /** The arithmetic of the bound: the blocks of an update. */
    lemma BoundOf(srcSize: nat, buffered: nat, full: nat, last: nat)
      requires ValidPreferences(prefs) && buffered < BlockSizeOf(prefs)
      requires full <= (srcSize + buffered) / BlockSizeOf(prefs)
      requires last == if prefs.autoFlush then (srcSize + buffered) % BlockSizeOf(prefs) else 0
      ensures Took(full, last) + EndSize() <= WorstCase(srcSize, prefs, buffered)
    {
      hide MaxBlockSize;
      var size := BlockSizeOf(prefs);
      var total := srcSize + buffered;
      var q, more := total / size, LastSize(prefs, srcSize, total, size);
      NoMoreThan(Overhead(), size, full + Bit(last > 0), q + Bit(more > 0), full, q, last, more, EndSize());
    }

    lemma NoMoreThan(unit: nat, size: nat, blocks: nat, most: nat, full: nat, q: nat, last: nat, more: nat, end: nat)
      requires blocks <= most && full <= q && last <= more
      ensures unit * blocks + size * full + last + end <= unit * most + size * q + more + end
    {
      GrowsWeakly(unit, blocks, most);
      GrowsWeakly(size, full, q);
    }

    /** One block completed in the buffer, and the rest from the input. */
    lemma OneMore(srcSize: nat, buffered: nat, full: nat)
      requires ValidPreferences(prefs) && 0 < buffered < BlockSizeOf(prefs) <= srcSize + buffered
      requires full == (srcSize - (BlockSizeOf(prefs) - buffered)) / BlockSizeOf(prefs)
      ensures full + 1 == (srcSize + buffered) / BlockSizeOf(prefs) && Took(full + 1, 0) == Overhead() + BlockSizeOf(prefs) + Took(full, 0)
    {
      var bs := BlockSizeOf(prefs);
      var total := srcSize + buffered;
      assert total - bs == srcSize - (bs - buffered);
      QuotientLess(total, bs);
      Times(Overhead(), full);
      Times(bs, full);
    }

    lemma QuotientLess(total: nat, size: nat)
      requires 0 < size <= total
      ensures (total - size) / size + 1 == total / size
    {
      var q := (total - size) / size;
      Times(size, q);
      Counted(0, total, (q + 1) * size, q + 1, size);
    }

    /** The end of the frame, in the bound. */
    function EndSize(): nat
      reads this`prefs
    {
      BLOCK_HEADER_SIZE + CHECKSUM_SIZE * Bit(prefs.contentChecksum)
    }

    /** Blocks from the input leave their dictionary there. */
    method TakeInput(src: nat, srcEnd: nat) returns (out: seq<byte>, srcPtr: nat)
      requires Settings() && src <= srcEnd <= |mem| && Apart(src, srcEnd) && tmpIn <= tmpBuff + maxBufferSize && (prefs.linked ==> DictOk() && DictPlaced())
      modifies this`dictionary, this`dictSize, this`currentOffset, this`calls, this`h
      ensures src <= srcPtr <= srcEnd && h == old(h) + Bytes(mem, src, srcPtr) && Codes(out, old(h), h)
      ensures srcEnd - srcPtr == if prefs.autoFlush then 0 else (srcEnd - src) % BlockSizeOf(prefs)
      ensures RestSize(|out|, srcEnd - src, old(Whole(Bytes(mem, src, srcEnd))))
      ensures prefs.linked ==> DictOk() && if srcPtr > src then Apart(dictionary, dictionary + dictSize) else DictPlaced()
      ensures srcPtr == src ==> dictionary == old(dictionary) && dictSize == old(dictSize)
    {
      hide DictOk, Bytes, Codes, Sound, Took, FromSource, Whole;
      out, srcPtr := FromInput(src, srcEnd);
      if srcPtr > src && prefs.linked {
        FromSourceApart(src, srcPtr, srcEnd, old(dictionary), old(dictSize));
      }
    }

    /** The blocks of an update: what is in the buffer first, then the input. */
    method Compress(src: nat, srcEnd: nat, ghost buffEnd: nat) returns (out: seq<byte>, srcPtr: nat, fromSrc: bool)
      requires Mid() && Fits() && tmpInSize < BlockSizeOf(prefs) && src <= srcEnd <= |mem| && Apart(src, srcEnd) && buffEnd == tmpBuff + maxBufferSize
      modifies this`mem, this`tmpIn, this`tmpInSize, this`dictionary, this`dictSize, this`currentOffset, this`calls, this`h
      ensures BufferOk() && Settings() && tmpBuff <= tmpIn && tmpIn + tmpInSize <= buffEnd && src <= srcPtr <= srcEnd
      ensures (prefs.autoFlush ==> tmpInSize == 0 && srcPtr == srcEnd) && (!prefs.linked ==> tmpIn == tmpBuff) && (prefs.linked ==> DictOk())
      ensures prefs.linked ==> if fromSrc then Apart(dictionary, dictionary + dictSize) else DictPlaced()
      ensures (tmpInSize > 0 ==> !fromSrc && Fits() && srcPtr == srcEnd) && tmpInSize < BlockSizeOf(prefs) && srcEnd - srcPtr < BlockSizeOf(prefs)
      ensures Codes(out, old(h), h) && h + Tmp() == old(h + Tmp()) + Bytes(old(mem), src, srcPtr)
      ensures OutputSize(|out|, srcEnd - src, old(tmpInSize), old(Whole(Tmp() + Bytes(mem, src, srcEnd))))
      ensures |mem| == |old(mem)| && Untouched(mem, old(mem), tmpBuff, buffEnd)
      ensures prefs.linked && !fromSrc && old(InTmp()) ==> InTmp()
    {
      hide DictOk, Bytes, Codes, Sound, Untouched, RestSize, OutputSize, FirstTaken, ValidPreferences, BlockSizeOf, Whole, InTmp, Fits, DictPlaced;
      ghost var before, whole := h + Tmp(), Whole(Tmp() + Bytes(mem, src, srcEnd));
      out, srcPtr := FirstBlock(src, srcEnd, buffEnd);
      var start := srcPtr;
      ghost var first, rest := |out|, Whole(Bytes(mem, start, srcEnd));
      ApartPart(src, srcEnd, start, srcEnd);
      var part;
      part, srcPtr := TakeRest(old(mem), src, start, srcEnd, buffEnd, out, old(h), before);
      fromSrc := srcPtr > start;
      out := out + part;
      UpdateSizes(srcEnd - src, old(tmpInSize), first, srcEnd - start, |part|, whole, rest);
    }

    /** And blocks straight from the input. */
    method TakeRest(ghost was: seq<byte>, ghost src: nat, start: nat, srcEnd: nat, ghost buffEnd: nat, ghost out1: seq<byte>, ghost h0: seq<byte>, ghost before: seq<byte>)
        returns (part: seq<byte>, srcPtr: nat)
      requires Mid() && src <= start <= srcEnd <= |mem| == |was| && Apart(start, srcEnd) && (tmpInSize > 0 ==> start == srcEnd)
      requires Untouched(mem, was, tmpBuff, buffEnd) && buffEnd == tmpBuff + maxBufferSize && Codes(out1, h0, h) && h + Tmp() == before + Bytes(was, src, start)
      modifies this`dictionary, this`dictSize, this`currentOffset, this`calls, this`h
      ensures start <= srcPtr <= srcEnd && srcEnd - srcPtr == if prefs.autoFlush then 0 else (srcEnd - start) % BlockSizeOf(prefs)
      ensures Codes(out1 + part, h0, h) && h + Tmp() == before + Bytes(was, src, srcPtr)
      ensures RestSize(|part|, srcEnd - start, old(Whole(Bytes(mem, start, srcEnd))))
      ensures prefs.linked ==> DictOk() && if srcPtr > start then Apart(dictionary, dictionary + dictSize) else DictPlaced()
      ensures srcPtr == start ==> dictionary == old(dictionary) && dictSize == old(dictSize)
    {
      hide DictOk, Bytes, Codes, Sound, Untouched, RestSize, Whole, DictPlaced, Apart;
      ghost var h1 := h;
      part, srcPtr := TakeInput(start, srcEnd);
      ApartPart(start, srcEnd, start, srcPtr);
      Joined(out1, part, h0, h1, h);
      HeldOn(was, buffEnd, src, start, srcPtr, h1, before);
    }

    /** What is in the buffer, if there is anything. */
    method FirstBlock(src: nat, srcEnd: nat, ghost buffEnd: nat) returns (out: seq<byte>, srcPtr: nat)
      requires Mid() && Fits() && tmpInSize < BlockSizeOf(prefs) && src <= srcEnd <= |mem| && Apart(src, srcEnd) && buffEnd == tmpBuff + maxBufferSize
      modifies this`mem, this`tmpIn, this`tmpInSize, this`dictionary, this`dictSize, this`currentOffset, this`calls, this`h
      ensures Mid() && src <= srcPtr <= srcEnd && Codes(out, old(h), h) && tmpInSize < BlockSizeOf(prefs)
      ensures h + Tmp() == old(h + Tmp()) + Bytes(old(mem), src, srcPtr)
      ensures |mem| == |old(mem)| && Untouched(mem, old(mem), tmpBuff, buffEnd)
      ensures tmpInSize > 0 ==> srcPtr == srcEnd && Fits()
      ensures FirstTaken(srcEnd - src, old(tmpInSize), |out|, srcEnd - srcPtr, old(Whole(Tmp() + Bytes(mem, src, srcEnd))))
      ensures old(Whole(Tmp() + Bytes(mem, src, srcEnd))) ==> Whole(Bytes(mem, srcPtr, srcEnd))
      ensures old(InTmp()) ==> InTmp()
    {
      hide DictOk, Bytes, Codes, Sound, Untouched, FirstSize, Whole;
      UntouchedSame(mem, tmpBuff, buffEnd);
      CodesNone();
      out, srcPtr := [], src;
      Nothing(src);
      TmpNone();
      if tmpInSize > 0 {
        out, srcPtr := CompleteTmp(src, srcEnd, buffEnd);
      } else {
        assert Tmp() + Bytes(mem, src, srcEnd) == Bytes(mem, src, srcEnd);
      }
    }

    /** How much of an update the buffer takes. */
    ghost predicate FirstTaken(srcSize: nat, buffered: nat, first: nat, rest: nat, whole: bool)
      requires ValidPreferences(prefs)
      reads this`prefs
    {
      if buffered == 0 then first == 0 && rest == srcSize
      else if srcSize < BlockSizeOf(prefs) - buffered then first == 0 && rest == 0
      else FirstSize(first, whole) && rest == srcSize - (BlockSizeOf(prefs) - buffered)
    }

    /** What is held, after more of the input. */
    lemma HeldOn(was: seq<byte>, buffEnd: nat, src: nat, start: nat, srcPtr: nat, h1: seq<byte>, before: seq<byte>)
      requires |mem| == |was| && Untouched(mem, was, tmpBuff, buffEnd) && buffEnd == tmpBuff + maxBufferSize
      requires src <= start <= srcPtr <= |mem| && Apart(start, srcPtr) && tmpIn + tmpInSize <= |mem| && (tmpInSize == 0 || start == srcPtr)
      requires h == h1 + Bytes(mem, start, srcPtr) && h1 + Tmp() == before + Bytes(was, src, start)
      ensures h + Tmp() == before + Bytes(was, src, srcPtr)
    {
      BytesKept(mem, was, tmpBuff, buffEnd, start, srcPtr);
      BytesJoin(was, src, start, srcPtr);
      Regroup(before, Bytes(was, src, start), Bytes(was, start, srcPtr));
      if tmpInSize == 0 {
        assert Tmp() == [];
      } else {
        assert Bytes(mem, start, srcPtr) == [] && Bytes(was, start, srcPtr) == [];
      }
    }

    lemma UpdateSizes(srcSize: nat, buffered: nat, first: nat, rest: nat, part: nat, whole: bool, restWhole: bool)
      requires ValidPreferences(prefs) && buffered < BlockSizeOf(prefs) && (prefs.autoFlush ==> buffered == 0) && RestSize(part, rest, restWhole) && (whole ==> restWhole)
      requires FirstTaken(srcSize, buffered, first, rest, whole)
      ensures OutputSize(first + part, srcSize, buffered, whole)
    {
      hide WorstCase, BlocksSize;
      var bs := BlockSizeOf(prefs);
      if buffered == 0 {
        BoundOf(srcSize, 0, srcSize / bs, if prefs.autoFlush then srcSize % bs else 0);
      } else if srcSize < bs - buffered {
        SmallDivision(srcSize + buffered, bs);
        BoundOf(srcSize, buffered, 0, 0);
      } else {
        OneMore(srcSize, buffered, rest / bs);
        BoundOf(srcSize, buffered, rest / bs + 1, 0);
      }
    }

    // -------------------------------------------------------- the operations

    lemma StreamingMid()
      requires Streaming()
      ensures ValidPreferences(prefs) && Mid() && Fits() && tmpInSize < BlockSizeOf(prefs) && Sums() && cStage == 1
      ensures tmpBuff + maxBufferSize <= |mem| && tmpIn + tmpInSize <= |mem|
    {
      hide DictOk, Sound, Codes, Sums;
    }

    lemma MidStreaming()
      requires cStage == 1 && Mid() && Fits() && tmpInSize < BlockSizeOf(prefs) && Sums()
      ensures Streaming()
    {
      hide DictOk, Sound, Codes, Sums;
    }

    /** LZ4F_compressUpdate: succeeds if the bound fits, and keeps to it. */
    method Update(src: nat, srcSize: nat, dstCapacity: nat, stableSrc: bool, ghost srcEnd: nat) returns (r: Outcome)
      requires (cStage == 1 ==> Streaming()) && srcEnd == src + srcSize <= |mem| && Apart(src, srcEnd)
      modifies this`mem, this`tmpIn, this`tmpInSize, this`dictionary, this`dictSize, this`currentOffset, this`calls, this`h, this`xxh, this`totalInSize, this`input, this`sent
      ensures old(cStage) != 1 ==> r == Error(Uninitialized)
      ensures old(cStage) == 1 ==> Streaming()
      ensures old(cStage) == 1 ==> if dstCapacity < CompressBound(srcSize, prefs, old(tmpInSize)) then r == Error(DstTooSmall)
              else r.Ok? && input == old(input) + old(mem[src..srcEnd]) && sent == old(sent) + r.out
      ensures r.Ok? && Countable(srcSize, prefs, old(tmpInSize)) ==> |r.out| + EndSize() <= CompressBound(srcSize, prefs, old(tmpInSize)) <= dstCapacity
      ensures r.Ok? && old(NoneShrinks(compress, prefs, calls, h, Tmp() + mem[src..srcEnd])) ==>
        |r.out| == UpdateSize(srcSize, prefs, old(tmpInSize)) && (|r.out| <= CompressBound(srcSize, prefs, old(tmpInSize)) <==> Countable(srcSize, prefs, old(tmpInSize)))
      ensures r.Error? ==> input == old(input) && sent == old(sent)
      ensures |mem| == |old(mem)|
      ensures !stableSrc && old(InTmp()) ==> InTmp()
    {
      hide DictOk, Sound, Codes, CompressBound, WorstCase, DictPlaced, Countable, Sums, NoneShrinks, UpdateSize;
      if cStage != 1 {
        return Error(Uninitialized);
      }
      if dstCapacity < CompressBound(srcSize, prefs, tmpInSize) {
        return Error(DstTooSmall);
      }
      BoundHolds(srcSize, prefs, tmpInSize);
      var out := Take(src, srcSize, stableSrc, srcEnd);
      return Ok(out);
    }

    /** The update itself. */
    method Take(src: nat, srcSize: nat, stableSrc: bool, ghost srcEnd: nat) returns (out: seq<byte>)
      requires Streaming() && srcEnd == src + srcSize <= |mem| && Apart(src, srcEnd)
      modifies this`mem, this`tmpIn, this`tmpInSize, this`dictionary, this`dictSize, this`currentOffset, this`calls, this`h, this`xxh, this`totalInSize, this`input, this`sent
      ensures Streaming() && |mem| == |old(mem)| && input == old(input) + Bytes(old(mem), src, srcEnd) && sent == old(sent) + out
      ensures OutputSize(|out|, srcSize, old(tmpInSize), old(Whole(Tmp() + Bytes(mem, src, srcEnd))))
      ensures !stableSrc && old(InTmp()) ==> InTmp()
    {
      hide DictOk, Bytes, Sound, Codes, Mid, Fits, Untouched, OutputSize, DictPlaced, Streaming, InTmp;
      StreamingMid();
      ghost var buffEnd, data, h0 := tmpBuff + maxBufferSize, Bytes(mem, src, srcEnd), h;
      out := Advance(src, src + srcSize, stableSrc, buffEnd);
      BytesKept(mem, old(mem), tmpBuff, buffEnd, src, srcEnd);
      Joined(sent, out, [], h0, h);
      Account(src, src + srcSize, out, data);
      MidStreaming();
    }

    /** The input is counted, and hashed if its checksum is wanted. */
    method Account(src: nat, srcEnd: nat, ghost out: seq<byte>, ghost data: seq<byte>)
      requires tmpIn + tmpInSize <= |mem| && src <= srcEnd <= |mem| && data == Bytes(mem, src, srcEnd)
      requires h + Tmp() == input + data && Codes(sent + out, [], h)
      requires (prefs.contentChecksum ==> xxh == input) && (prefs.contentSize > 0 ==> totalInSize == |input| % U64_RANGE)
      modifies this`xxh, this`totalInSize, this`input, this`sent
      ensures Sums() && input == old(input) + data && sent == old(sent) + out
    {
      hide Bytes, Codes;
      if prefs.contentChecksum { xxh := xxh + Bytes(mem, src, srcEnd); }
      Total(|input|, srcEnd - src);
      totalInSize, input, sent := (totalInSize + (srcEnd - src)) % U64_RANGE, input + data, sent + out;
    }

    lemma Total(n: nat, size: nat)
      ensures (n % U64_RANGE + size) % U64_RANGE == (n + size) % U64_RANGE
    {
    }

    /** All of the input is compressed or collected. */
    method Advance(src: nat, srcEnd: nat, stableSrc: bool, ghost buffEnd: nat) returns (out: seq<byte>)
      requires Mid() && Fits() && tmpInSize < BlockSizeOf(prefs) && src <= srcEnd <= |mem| && Apart(src, srcEnd) && buffEnd == tmpBuff + maxBufferSize
      modifies this`mem, this`tmpIn, this`tmpInSize, this`dictionary, this`dictSize, this`currentOffset, this`calls, this`h
      ensures Mid() && Fits() && tmpIn + tmpInSize <= |mem| && tmpInSize < BlockSizeOf(prefs) && Codes(out, old(h), h)
      ensures h + Tmp() == old(h + Tmp()) + Bytes(old(mem), src, srcEnd)
      ensures OutputSize(|out|, srcEnd - src, old(tmpInSize), old(Whole(Tmp() + Bytes(mem, src, srcEnd))))
      ensures |mem| == |old(mem)| && Untouched(mem, old(mem), tmpBuff, buffEnd)
      ensures !stableSrc && old(InTmp()) ==> InTmp()
    {
      hide DictOk, Bytes, Codes, Sound, Untouched, OutputSize, Whole, DictPlaced, ValidPreferences, BlockSizeOf, Apart, InTmp;
      ghost var was, before := mem, h + Tmp();
      var srcPtr;
      out, srcPtr := Send(src, srcEnd, stableSrc, buffEnd);
      ghost var mid := mem;
      if srcPtr < srcEnd {
        ApartPart(src, srcEnd, srcPtr, srcEnd);
        TmpNone();
        Collect(srcPtr, srcEnd - srcPtr, srcEnd, tmpIn + tmpInSize, buffEnd);
        UntouchedTwice(was, mid, mem, tmpBuff, buffEnd);
        Collected(was, mid, src, srcPtr, srcEnd, before, buffEnd);
      }
    }

    lemma Collected(was: seq<byte>, mid: seq<byte>, src: nat, srcPtr: nat, srcEnd: nat, before: seq<byte>, buffEnd: nat)
      requires |mem| == |mid| == |was| && Untouched(mid, was, tmpBuff, buffEnd) && buffEnd == tmpBuff + maxBufferSize
      requires src <= srcPtr <= srcEnd <= |mem| && Apart(srcPtr, srcEnd) && tmpIn + tmpInSize <= |mem|
      requires h == before + Bytes(was, src, srcPtr) && Tmp() == Bytes(mid, srcPtr, srcEnd)
      ensures h + Tmp() == before + Bytes(was, src, srcEnd)
    {
      hide Untouched;
      BytesKept(mid, was, tmpBuff, buffEnd, srcPtr, srcEnd);
      BytesJoin(was, src, srcPtr, srcEnd);
      Regroup(before, Bytes(was, src, srcPtr), Bytes(was, srcPtr, srcEnd));
    }

    /** What can be compressed at once, and room for what is left. */
    method Send(src: nat, srcEnd: nat, stableSrc: bool, ghost buffEnd: nat) returns (out: seq<byte>, srcPtr: nat)
      requires Mid() && Fits() && tmpInSize < BlockSizeOf(prefs) && src <= srcEnd <= |mem| && Apart(src, srcEnd) && buffEnd == tmpBuff + maxBufferSize
      modifies this`mem, this`tmpIn, this`tmpInSize, this`dictionary, this`dictSize, this`currentOffset, this`calls, this`h
      ensures Mid() && Fits() && tmpIn + tmpInSize <= |mem| && tmpInSize < BlockSizeOf(prefs) && Codes(out, old(h), h)
      ensures src <= srcPtr <= srcEnd && h + Tmp() == old(h + Tmp()) + Bytes(old(mem), src, srcPtr)
      ensures srcPtr < srcEnd ==> tmpInSize == 0 && Tmp() == [] && h + Tmp() == h && !prefs.autoFlush && srcEnd - srcPtr < BlockSizeOf(prefs)
      ensures OutputSize(|out|, srcEnd - src, old(tmpInSize), old(Whole(Tmp() + Bytes(mem, src, srcEnd))))
      ensures |mem| == |old(mem)| && Untouched(mem, old(mem), tmpBuff, buffEnd)
      ensures !stableSrc && old(InTmp()) ==> InTmp()
    {
      hide DictOk, Bytes, Codes, Sound, Untouched, OutputSize, Whole, DictPlaced, ValidPreferences, BlockSizeOf;
      var fromSrc;
      out, srcPtr, fromSrc := Compress(src, srcEnd, buffEnd);
      ghost var mid := mem;
      TmpNone();
      Retain(fromSrc, stableSrc, buffEnd);
      UntouchedTwice(old(mem), mid, mem, tmpBuff, buffEnd);
      TmpNone();
      assert tmpInSize == 0 ==> h + Tmp() == h;
    }

    lemma TmpNone()
      requires tmpIn <= |mem|
      ensures tmpInSize == 0 ==> Tmp() == []
    {
    }

    /** LZ4F_flush: what is collected becomes a block. */
    method Flush(dstCapacity: nat) returns (r: Outcome)
      requires cStage == 1 ==> Streaming()
      modifies this`mem, this`tmpIn, this`tmpInSize, this`dictionary, this`dictSize, this`currentOffset, this`calls, this`h, this`sent
      ensures old(tmpInSize) > 0 && old(cStage) != 1 ==> r == Error(Uninitialized)
      ensures old(cStage) == 1 ==> Streaming() && (r.Error? <==> 0 < old(tmpInSize) && dstCapacity < old(tmpInSize) + BLOCK_HEADER_SIZE + CHECKSUM_SIZE)
      ensures old(cStage) == 1 ==> if r.Ok? then tmpInSize == 0 && h == input && sent == old(sent) + r.out && |r.out| <= (if old(tmpInSize) > 0 then Overhead() + old(tmpInSize) else 0)
              else r == Error(DstTooSmall) && sent == old(sent) && tmpInSize == old(tmpInSize)
      ensures |mem| == |old(mem)|
      ensures old(InTmp()) ==> InTmp()
    {
      hide DictOk, Sound, Codes, DictPlaced, Bytes;
      if tmpInSize == 0 {
        if cStage == 1 { NothingCollected(); }
        return Ok([]);
      }
      if cStage != 1 {
        return Error(Uninitialized);
      }
      if dstCapacity < tmpInSize + BLOCK_HEADER_SIZE + CHECKSUM_SIZE {
        return Error(DstTooSmall);
      }
      var out := FlushBlock(tmpBuff + maxBufferSize);
      return Ok(out);
    }

    lemma NothingCollected()
      requires tmpIn <= |mem| && tmpInSize == 0 && Sums()
      ensures h == input && forall s: seq<byte> :: s + [] == s
    {
      TmpEmpty();
    }

    method FlushBlock(ghost buffEnd: nat) returns (out: seq<byte>)
      requires Streaming() && tmpInSize > 0 && buffEnd == tmpBuff + maxBufferSize
      modifies this`mem, this`tmpIn, this`tmpInSize, this`dictionary, this`dictSize, this`currentOffset, this`calls, this`h, this`sent
      ensures Streaming() && tmpInSize == 0 && h == input && sent == old(sent) + out && |out| <= Overhead() + old(tmpInSize) && |mem| == |old(mem)|
      ensures old(InTmp()) ==> InTmp()
    {
      hide DictOk, Bytes, Codes, Sound, Untouched, Streaming, Mid, Fits;
      StreamingMid();
      ghost var h1 := h;
      out := FlushTmp(buffEnd);
      Joined(sent, out, [], h1, h);
      sent := sent + out;
      TmpEmpty();
      MidStreaming();
    }

    method FlushTmp(ghost buffEnd: nat) returns (out: seq<byte>)
      requires Mid() && Fits() && 0 < tmpInSize < BlockSizeOf(prefs) && buffEnd == tmpBuff + maxBufferSize
      modifies this`mem, this`tmpIn, this`tmpInSize, this`dictionary, this`dictSize, this`currentOffset, this`calls, this`h
      ensures Mid() && Fits() && tmpInSize == 0 && h == old(h + Tmp()) && Codes(out, old(h), h) && |out| <= Overhead() + old(tmpInSize) && tmpIn <= |mem| == |old(mem)|
      ensures old(InTmp()) ==> InTmp()
    {
      hide DictOk, Bytes, Codes, Sound, Untouched;
      out := CompressTmp();
      if tmpIn + BlockSizeOf(prefs) > tmpBuff + maxBufferSize {
        var realDictSize := SaveDict(buffEnd);
        tmpIn := tmpBuff + realDictSize;
      }
    }

    /** LZ4F_compressEnd: what is collected, the end mark, and the checksum. The whole frame's content
        is all input. */
    method End(dstCapacity: nat) returns (r: Outcome)
      requires cStage == 1 && Streaming() && |input| < U64_RANGE
      modifies this`mem, this`tmpIn, this`tmpInSize, this`dictionary, this`dictSize, this`currentOffset, this`calls, this`h, this`sent, this`cStage
      ensures prefs == old(prefs) && |mem| == |old(mem)|
      ensures dstCapacity >= CompressBound(0, prefs, old(tmpInSize)) ==>
        if prefs.contentSize == 0 || prefs.contentSize == |input| then r.Ok? else r == Error(FrameSizeWrong)
      ensures r == Error(DstTooSmall) ==>
        (0 < old(tmpInSize) && dstCapacity < old(tmpInSize) + BLOCK_HEADER_SIZE + CHECKSUM_SIZE) || dstCapacity < |sent| - |old(sent)| + EndSize()
      ensures r.Ok? ==> Idle() && |r.out| <= CompressBound(0, prefs, old(tmpInSize))
      ensures r.Ok? ==> Frame(codec, Header(prefs) + old(sent) + r.out) == Some((input, |Header(prefs) + old(sent) + r.out|))
      ensures r.Ok? ==> ValidPreferences(prefs) && PackedFrame(compress, prefs, Header(prefs) + old(sent) + r.out, input)
    {
      hide DictOk, Sound, Codes, DictPlaced, Bytes, CompressBound, Frame, PackedFrame, Header, Checksum, WriteLE32, Streaming;
      StreamingMid();
      EndBound();
      ghost var sent0 := sent;
      r := Flush(dstCapacity);
      if r.Error? { return; }
      StreamingMid();
      r := Close(dstCapacity - |r.out|, r.out, sent0);
    }

    /** The end mark and the checksum, behind what was flushed. */
    method Close(room: int, flushed: seq<byte>, ghost sent0: seq<byte>) returns (r: Outcome)
      requires ValidPreferences(prefs) && tmpIn + tmpInSize <= |mem| && tmpBuff + maxBufferSize <= |mem|
      requires Sums() && h == input && sent == sent0 + flushed && |input| < U64_RANGE
      modifies this`cStage
      ensures if room < EndSize() then r == Error(DstTooSmall)
              else if prefs.contentSize == 0 || prefs.contentSize == |input| then r.Ok? else r == Error(FrameSizeWrong)
      ensures r.Ok? ==> cStage == 0 && |r.out| == |flushed| + EndSize()
      ensures r.Ok? ==> Frame(codec, Header(prefs) + sent0 + r.out) == Some((input, |Header(prefs) + sent0 + r.out|))
      ensures r.Ok? ==> PackedFrame(compress, prefs, Header(prefs) + sent0 + r.out, input)
    {
      hide DictOk, Sound, Codes, DictPlaced, Bytes, Frame, PackedFrame, Header, Checksum, WriteLE32;
      if room < 4 {
        return Error(DstTooSmall);
      }
      var out := flushed + WriteLE32(0);
      if prefs.contentChecksum {
        if room < 8 {
          return Error(DstTooSmall);
        }
        out := out + WriteLE32(Checksum(xxh));
      }
      cStage := 0;
      if prefs.contentSize > 0 && prefs.contentSize != totalInSize {
        return Error(FrameSizeWrong);
      }
      FrameMade(sent0, flushed, out);
      r := Ok(out);
    }

    lemma EndBound()
      requires ValidPreferences(prefs) && tmpInSize < BlockSizeOf(prefs)
      ensures CompressBound(0, prefs, tmpInSize) == (if tmpInSize > 0 then Overhead() + tmpInSize else 0) + EndSize()
    {
    }

    lemma FrameMade(sent0: seq<byte>, flushed: seq<byte>, out: seq<byte>)
      requires ValidPreferences(prefs) && Codes(sent, [], h) && h == input && sent == sent0 + flushed
      requires out == flushed + Suffix(InfoFor(prefs), input) && (prefs.contentSize == 0 || prefs.contentSize == |input|)
      ensures Frame(codec, Header(prefs) + sent0 + out) == Some((input, |Header(prefs) + sent0 + out|))
      ensures PackedFrame(compress, prefs, Header(prefs) + sent0 + out, input)
    {
      hide Frame, Header, Suffix, Decoded, Packed;
      WholeFrame(codec, prefs, sent, input);
      assert Header(prefs) + sent0 + out == Header(prefs) + sent + Suffix(InfoFor(prefs), input);
      assert FrameOf(compress, prefs, Header(prefs) + sent0 + out, input, sent);
    }

    /** LZ4F_compressBegin: the header, and a buffer that is large enough; newBuffer is the address of
        a new one. */
    method Begin(preferences: Preferences, dstCapacity: nat, newBuffer: nat) returns (r: Outcome)
      requires ValidPreferences(preferences) && Sound(codec, compress) && tmpBuff + maxBufferSize <= |mem|
      requires newBuffer + Required(preferences) <= |mem|
      modifies this`prefs, this`cStage, this`tmpBuff, this`maxBufferSize, this`tmpIn, this`tmpInSize, this`totalInSize, this`xxh
      modifies this`dictionary, this`dictSize, this`currentOffset, this`input, this`h, this`sent
      ensures if dstCapacity < HEADER_SIZE_MAX then r == Error(DstTooSmall) && cStage == old(cStage)
              else Streaming() && r == Ok(Header(prefs)) && input == [] && sent == [] && tmpInSize == 0 && |r.out| <= HEADER_SIZE_MAX
      ensures r.Ok? ==> InfoFor(prefs) == InfoFor(preferences) && prefs.autoFlush == preferences.autoFlush
      ensures r.Ok? ==> if old(maxBufferSize) < Required(preferences) then tmpBuff == newBuffer && maxBufferSize == Required(preferences)
                        else tmpBuff == old(tmpBuff) && maxBufferSize == old(maxBufferSize)
      ensures r.Ok? ==> InTmp()
    {
      hide Header, Sound, Codes, EndsWith, TmpOk, Required, ValidPreferences, InfoFor, Sums, DictOk, DictPlaced;
      if dstCapacity < HEADER_SIZE_MAX {
        return Error(DstTooSmall);
      }
      Prepare(preferences, newBuffer);
      Reset();
      cStage := 1;
      var out := WriteHeader();
      r := Ok(out);
    }

    /** Nothing is fed in yet, and there is no dictionary. */
    method Reset()
      requires TmpOk() && tmpInSize == 0
      modifies this`xxh, this`totalInSize, this`dictionary, this`dictSize, this`currentOffset, this`input, this`h, this`sent
      ensures tmpIn + tmpInSize <= |mem| && Sums() && (prefs.linked ==> DictOk() && DictPlaced()) && input == [] && sent == []
      ensures InTmp()
    {
      hide TmpOk, Sums, DictOk, DictPlaced;
      ResetDict();
      input, h, sent, xxh := [], [], [], [];
      if prefs.contentSize > 0 { totalInSize := 0; }
      Started();
    }

    /** LZ4F_initStream: the compressor's tables forget what they had, and there is no dictionary. */
    method ResetDict()
      modifies this`dictionary, this`dictSize, this`currentOffset
      ensures prefs.linked ==> dictionary == 0 && dictSize == 0 && currentOffset <= RENORM
    {
      if prefs.linked {
        dictionary, dictSize := 0, 0;
        currentOffset := if currentOffset > 0x4000_0000 then 0 else if currentOffset != 0 then currentOffset + 65536 else 0;
      }
    }

    /** Preferences, and a buffer that is large enough for them. */
    method Prepare(preferences: Preferences, newBuffer: nat)
      requires ValidPreferences(preferences) && tmpBuff + maxBufferSize <= |mem| && newBuffer + Required(preferences) <= |mem|
      modifies this`prefs, this`tmpBuff, this`maxBufferSize, this`tmpIn, this`tmpInSize
      ensures ValidPreferences(prefs) && TmpOk() && tmpInSize == 0 && InfoFor(prefs) == InfoFor(preferences) && prefs.autoFlush == preferences.autoFlush && tmpIn == tmpBuff
      ensures if old(maxBufferSize) < Required(preferences) then tmpBuff == newBuffer && maxBufferSize == Required(preferences)
              else tmpBuff == old(tmpBuff) && maxBufferSize == old(maxBufferSize)
    {
      prefs := preferences;
      if prefs.blockSizeId == 0 { prefs := prefs.(blockSizeId := BLOCKSIZEID_DEFAULT); }
      var required := if preferences.autoFlush then (if prefs.linked then WINDOW else 0)
                      else BlockSizeOf(prefs) + (if prefs.linked then 2 * WINDOW else 0);
      if maxBufferSize < required {
        tmpBuff, maxBufferSize := newBuffer, required;
      }
      tmpIn, tmpInSize := tmpBuff, 0;
    }

    lemma Started()
      requires TmpOk() && tmpInSize == 0 && input == [] && h == [] && sent == [] && xxh == []
      requires (prefs.contentSize > 0 ==> totalInSize == 0) && (prefs.linked ==> dictionary == 0 && dictSize == 0 && currentOffset <= RENORM)
      ensures tmpIn + tmpInSize <= |mem| && Sums() && (prefs.linked ==> DictOk() && DictPlaced()) && InTmp()
    {
      assert Tmp() == [];
      PackedNone(compress, InfoFor(prefs), []);
    }

    /** The frame header, field after field. */
    method WriteHeader() returns (out: seq<byte>)
      requires ValidPreferences(prefs)
      ensures out == Header(prefs) && |out| <= HEADER_SIZE_MAX
    {
      hide WriteLE32, WriteLE64, Checksum;
      var descriptor := [FlagByte(prefs), 16 * BlockSizeId(prefs)];
      if prefs.contentSize > 0 { descriptor := descriptor + WriteLE64(prefs.contentSize); }
      if prefs.dictId > 0 { descriptor := descriptor + WriteLE32(prefs.dictId); }
      assert descriptor == Descriptor(prefs);
      out := WriteLE32(MAGIC) + descriptor + [HeaderChecksum(descriptor)];
    }

    /** The caller does what it wants with its memory, apart from the buffer and a dictionary that it
        promised to keep. */
    method CallerWrites(m: seq<byte>)
      requires Streaming() && |m| == |mem|
      requires Bytes(m, tmpBuff, tmpBuff + maxBufferSize) == Bytes(mem, tmpBuff, tmpBuff + maxBufferSize)
      requires prefs.linked ==> Bytes(m, dictionary, dictionary + dictSize) == Bytes(mem, dictionary, dictionary + dictSize)
      modifies this`mem
      ensures Streaming() && mem == m
    {
      hide Sound, Codes, EndsWith, ValidPreferences, Required, BlockSizeOf, Bytes;
      SameTmp(m, tmpBuff, tmpBuff + maxBufferSize, tmpIn, tmpIn + tmpInSize);
      mem := m;
    }

    lemma SameTmp(m: seq<byte>, lo: nat, hi: nat, a: nat, b: nat)
      requires lo <= a <= b <= hi <= |m| == |mem| && Bytes(m, lo, hi) == Bytes(mem, lo, hi)
      ensures Bytes(m, a, b) == Bytes(mem, a, b)
    {
      BytesInside(m, lo, hi, a, b);
      BytesInside(mem, lo, hi, a, b);
    }

    /** LZ4F_compressFrame_usingCDict, without a dictionary: header, blocks and end in one call. What it
        makes is a frame of the input. It succeeds in LZ4F_compressFrameBound bytes if the blocks can be
        counted in 32 bits; if they cannot, it writes more than that when no block gets smaller. */
    method CompressFrame(src: nat, srcSize: nat, dstCapacity: nat, preferences: Preferences, newBuffer: nat, ghost srcEnd: nat) returns (r: Outcome)
      requires ValidPreferences(preferences) && Sound(codec, compress) && tmpBuff + maxBufferSize <= |mem| && newBuffer + WINDOW <= |mem|
      requires srcEnd == src + srcSize <= |mem| && srcSize < U64_RANGE && Apart(src, srcEnd) && (srcEnd < newBuffer || newBuffer + WINDOW < src)
      requires dstCapacity < U64_RANGE
      modifies this`mem, this`tmpIn, this`tmpInSize, this`dictionary, this`dictSize, this`currentOffset, this`calls, this`h, this`xxh
      modifies this`totalInSize, this`input, this`sent, this`prefs, this`cStage, this`tmpBuff, this`maxBufferSize
      ensures |mem| == |old(mem)|
      ensures r.Ok? ==> Frame(codec, r.out) == Some((old(mem[src..srcEnd]), |r.out|)) && ValidPreferences(prefs)
      ensures r.Ok? ==> PackedFrame(compress, prefs, r.out, old(mem[src..srcEnd]))
      ensures dstCapacity < CompressFrameBound(srcSize, preferences) ==> r == Error(DstTooSmall)
      ensures dstCapacity >= CompressFrameBound(srcSize, preferences) && Countable(srcSize, preferences.(autoFlush := true), 0) ==>
        r.Ok? && |r.out| <= CompressFrameBound(srcSize, preferences)
      ensures r.Ok? && NoneShrinks(compress, prefs, old(calls), [], old(mem[src..srcEnd])) ==>
        (|r.out| <= CompressFrameBound(srcSize, preferences) <==> Countable(srcSize, preferences.(autoFlush := true), 0))
    {
      hide Sound, Countable, WorstCase, CompressBound, Header, Frame, PackedFrame, InTmp, Sums, Settings, Streaming, NoneShrinks, UpdateSize;
      var p := FramePreferences(preferences, srcSize);
      if dstCapacity < CompressFrameBound(srcSize, p) {
        return Error(DstTooSmall);
      }
      var header := Begin(p, dstCapacity, newBuffer);
      if header.Error? { return header; }
      StreamingMid();
      BoundBySizes(srcSize, prefs, p);
      r := WholeInput(src, srcSize, dstCapacity - |header.out|, srcEnd);
      if r.Ok? { r := Ok(header.out + r.out); }
    }

    /** Blocks and end of a frame of one piece of input. */
    method WholeInput(src: nat, srcSize: nat, room: nat, ghost srcEnd: nat) returns (r: Outcome)
      requires Streaming() && input == [] && sent == [] && tmpInSize == 0
      requires srcEnd == src + srcSize <= |mem| && srcSize < U64_RANGE && Apart(src, srcEnd) && room < U64_RANGE
      requires prefs.autoFlush && (prefs.contentSize == 0 || prefs.contentSize == srcSize)
      modifies this`mem, this`tmpIn, this`tmpInSize, this`dictionary, this`dictSize, this`currentOffset, this`calls, this`h, this`xxh
      modifies this`totalInSize, this`input, this`sent, this`cStage
      ensures |mem| == |old(mem)| && prefs == old(prefs) && ValidPreferences(prefs)
      ensures r.Ok? ==> Frame(codec, Header(prefs) + r.out) == Some((old(mem[src..srcEnd]), |Header(prefs) + r.out|))
      ensures r.Ok? ==> PackedFrame(compress, prefs, Header(prefs) + r.out, old(mem[src..srcEnd]))
      ensures room >= CompressBound(srcSize, prefs, 0) && Countable(srcSize, prefs, 0) ==> r.Ok? && |r.out| <= CompressBound(srcSize, prefs, 0)
      ensures r.Ok? && !Countable(srcSize, prefs, 0) && NoneShrinks(compress, prefs, old(calls), [], old(mem[src..srcEnd])) ==>
        |r.out| > CompressBound(srcSize, prefs, 0) + HEADER_SIZE_MAX
    {
      hide Sound, Countable, WorstCase, CompressBound, Header, Frame, PackedFrame, InTmp, Sums, Settings, Streaming, NoneShrinks, UpdateSize;
      StreamingMid();
      NothingYet(mem[src..srcEnd]);
      BoundHolds(srcSize, prefs, 0);
      var blocks := Update(src, srcSize, room, true, srcEnd);
      if blocks.Error? { return blocks; }
      StreamingMid();
      EndBound();
      assert sent == blocks.out && input == old(mem[src..srcEnd]) && tmpInSize == 0;
      var tail := End((room - |blocks.out|) % U64_RANGE);
      if tail.Error? { return tail; }
      r := Ok(blocks.out + tail.out);
      assert Header(prefs) + blocks.out + tail.out == Header(prefs) + r.out;
    }

    lemma NothingYet(data: seq<byte>)
      requires tmpIn + tmpInSize <= |mem| && Sums() && input == [] && tmpInSize == 0
      ensures h == [] && Tmp() + data == data
    {
    }

    /** The preferences of a whole frame: its size is known, no block is larger than it needs to be, and
        one block alone is not linked. */
    method FramePreferences(preferences: Preferences, srcSize: nat) returns (p: Preferences)
      requires ValidPreferences(preferences) && srcSize < U64_RANGE
      ensures ValidPreferences(p) && p.autoFlush && (p.contentSize == 0 || p.contentSize == srcSize)
      ensures CompressFrameBound(srcSize, p) == CompressFrameBound(srcSize, preferences)
      ensures Countable(srcSize, preferences.(autoFlush := true), 0) <==> Countable(srcSize, p, 0)
    {
      hide Countable, CompressBound;
      p := preferences;
      if p.contentSize != 0 { p := p.(contentSize := srcSize); }
      var id := OptimalBlockSizeId(p.blockSizeId, srcSize);
      p := p.(blockSizeId := id, autoFlush := true);
      if srcSize <= BlockSizeOf(p) { p := p.(linked := false); }
      SameBound(srcSize, preferences, id, p.linked, p.contentSize);
      assert p == preferences.(blockSizeId := id, linked := p.linked, contentSize := p.contentSize, autoFlush := true);
    }

    constructor (codec: Codec, compress: BlockCompressor, mem: seq<byte>)
      ensures this.codec == codec && this.compress == compress && this.mem == mem && Idle() && maxBufferSize == 0
    {
      this.codec, this.compress, this.mem := codec, compress, mem;
      prefs := Preferences(false, false, false, 0, 0, 0, false);
      cStage, tmpBuff, maxBufferSize, tmpIn, tmpInSize, totalInSize, xxh := 0, 0, 0, 0, 0, 0, [];
      dictionary, dictSize, currentOffset, calls := 0, 0, 0, 0;
    }
  }
}
