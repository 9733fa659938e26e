/** LZ4 blocks in frames: what a block means depends on the last 64 KB before it only, so that a block
    made with any end of the history as its dictionary is restored by a decoder with its window. */
module FrameBlocks {
  import opened Lz4Block
  import opened Lz4Copy
  import opened FrameFormat
  import opened FrameEncoding
  import C = FrameCompressor
  import Lz4Compress
  import Lz4Decompress

  /** The codec of a frame's blocks: well-formed LZ4 blocks. */
  ghost function BlockCodec(block: seq<byte>, window: seq<byte>): Option<seq<byte>> {
    match DecodeFrom(block, 0, window)
    case Some(r) => if |r| >= |window| && WellFormedFrom(block, 0, |window|, |r|) then Some(r[|window|..]) else None
    case None => None
  }

  function After(pre: seq<byte>, r: Option<seq<byte>>): Option<seq<byte>> {
    match r
    case Some(out) => Some(pre + out)
    case None => None
  }

  /** Bytes further back than the longest offset do not matter, nor do any if the block does without. */
  lemma {:induction false} HistoryBehind(src: seq<byte>, ip: nat, pre: seq<byte>, out: seq<byte>)
    requires ip <= |src| && (|out| >= DISTANCE_MAX || DecodeFrom(src, ip, out).Some?)
    ensures DecodeFrom(src, ip, pre + out) == After(pre, DecodeFrom(src, ip, out))
    decreases |src| - ip
  {
    hide ItemAt, CopyMatch;
    if ip < |src| {
      var item := ItemAt(src, ip);
      if item.Final? || item.Item? {
        var literals := src[item.start..item.start + item.length];
        assert pre + out + literals == pre + (out + literals);
        if item.Item? && item.offset <= |out + literals| {
          CopyMatchBehind(pre, out + literals, item.offset, item.matchLength);
          HistoryBehind(src, item.next, pre, CopyMatch(out + literals, item.offset, item.matchLength));
        }
      }
    }
  }

  lemma EndOf(h: seq<byte>, d: seq<byte>)
    requires C.EndsWith(h, d)
    ensures h == h[..|h| - |d|] + d
  {
  }

  /** A block that means its data after some end of the history does so after the window. */
  lemma WindowSuffices(out: seq<byte>, dict: seq<byte>, block: seq<byte>, h: seq<byte>)
    requires DecodeFrom(out, 0, dict) == Some(dict + block) && C.EndsWith(h, dict)
    ensures var w := Last(h, WINDOW); DecodeFrom(out, 0, w) == Some(w + block)
  {
    hide DecodeFrom;
    var w := Last(h, WINDOW);
    if |dict| <= |w| {
      assert C.EndsWith(w, dict);
      EndOf(w, dict);
      HistoryBehind(out, 0, w[..|w| - |dict|], dict);
      assert w[..|w| - |dict|] + (dict + block) == w + block;
    } else {
      assert C.EndsWith(dict, w);
      EndOf(dict, w);
      var pre := dict[..|dict| - |w|];
      HistoryBehind(out, 0, pre, w);
      var r := DecodeFrom(out, 0, w).value;
      assert pre + r == pre + (w + block);
      assert r == (pre + r)[|pre|..] == w + block;
    }
  }

  /** A block is well formed behind more history if it is, and behind less if what is left reaches as
      far back as an offset can. */
  lemma {:induction false} WellFormedBehind(src: seq<byte>, ip: nat, more: nat, produced: nat, total: nat)
    requires ip <= |src|
    ensures WellFormedFrom(src, ip, produced, total) ==> WellFormedFrom(src, ip, more + produced, more + total)
    ensures produced >= DISTANCE_MAX && WellFormedFrom(src, ip, more + produced, more + total) ==> WellFormedFrom(src, ip, produced, total)
    decreases |src| - ip
  {
    hide ItemAt;
    if ip < |src| {
      var item := ItemAt(src, ip);
      if item.Item? {
        WellFormedBehind(src, item.next, more, produced + item.length + item.matchLength, total);
      }
    }
  }

  /** Well formed and of this meaning, after a dictionary. */
  ghost predicate BlockAfter(out: seq<byte>, dict: seq<byte>, block: seq<byte>) {
    DecodeFrom(out, 0, dict) == Some(dict + block) && WellFormedFrom(out, 0, |dict|, |dict| + |block|)
  }

  /** A block made with any end of the history is one for the decoder's window. */
  lemma WindowAccepts(out: seq<byte>, dict: seq<byte>, block: seq<byte>, h: seq<byte>)
    requires BlockAfter(out, dict, block) && C.EndsWith(h, dict)
    ensures BlockCodec(out, Last(h, WINDOW)) == Some(block)
  {
    hide DecodeFrom, WellFormedFrom;
    WindowSuffices(out, dict, block, h);
    var w := Last(h, WINDOW);
    if |dict| <= |w| {
      WellFormedBehind(out, 0, |w| - |dict|, |dict|, |dict| + |block|);
    } else {
      WellFormedBehind(out, 0, |dict| - |w|, |w|, |w| + |block|);
    }
  }

  /** Each call of a compressor leaves a well-formed block that means its data after the dictionary. */
  ghost predicate MakesBlocks(compress: C.BlockCompressor) {
    forall k: nat, block: seq<byte>, dict: seq<byte> ::
      compress(k, block, dict) != [] ==> BlockAfter(compress(k, block, dict), dict, block)
  }

  /** Such a compressor can be used for frames. */
  lemma BlocksAreSound(compress: C.BlockCompressor)
    requires MakesBlocks(compress)
    ensures C.Sound(BlockCodec, compress)
  {
    hide BlockAfter;
    forall k: nat, block: seq<byte>, dict: seq<byte>, h: seq<byte> | C.EndsWith(h, dict) && compress(k, block, dict) != []
      ensures BlockCodec(compress(k, block, dict), Last(h, WINDOW)) == Some(block)
    {
      WindowAccepts(compress(k, block, dict), dict, block, h);
    }
  }

  // ------------------------------------------- the project's own block codec

  /** What the block compressors leave can be used behind any dictionary. */
  lemma CompressedAfter(out: seq<byte>, dict: seq<byte>, block: seq<byte>)
    requires Lz4Compress.IsCompressed(out, block)
    ensures BlockAfter(out, dict, block)
  {
    hide DecodeFrom, WellFormedFrom;
    HistoryBehind(out, 0, dict, []);
    assert dict + [] == dict;
    WellFormedBehind(out, 0, |dict|, 0, |block|);
  }

  /** A compressor that never refers to the dictionary, as for independent blocks. */
  lemma IndependentBlocks(compress: C.BlockCompressor)
    requires forall k: nat, block: seq<byte>, dict: seq<byte> ::
      compress(k, block, dict) == [] || Lz4Compress.IsCompressed(compress(k, block, dict), block)
    ensures MakesBlocks(compress)
  {
    forall k: nat, block: seq<byte>, dict: seq<byte> | compress(k, block, dict) != []
      ensures BlockAfter(compress(k, block, dict), dict, block)
    {
      CompressedAfter(compress(k, block, dict), dict, block);
    }
  }

  /** LZ4F_compressBlock and LZ4F_makeBlock with the block compressor itself, behind any history. */
  method MakeBlock(info: Info, data: seq<byte>, acceleration: int, hash: seq<byte> -> nat, ghost history: seq<byte>) returns (out: seq<byte>)
    requires 0 < |data| <= info.maxBlock < UNCOMPRESSED_FLAG
    ensures Decoded(BlockCodec, info, out, history) == Some(history + data)
    ensures Lz4Compress.AllSame(data) && |data| <= MAX_INPUT_SIZE ==>
      |out| == BLOCK_HEADER_SIZE + Lz4Compress.RunSize(|data|) + (if info.blockChecksum then CHECKSUM_SIZE else 0)
  {
    if Lz4Compress.AllSame(data) { SmallRun(data); }
    hide Checksum, Lz4Compress.AllSame, Lz4Compress.IsCompressed, Decoded, BlockCodec, BlockAfter;
    var dst := new byte[|data| - 1];
    var size := Lz4Compress.CompressFast(data, dst, 0, |data| - 1, acceleration, hash);
    var compressed := size != 0;
    var stored := if compressed then dst[..size] else data;
    out := C.BlockBytes(info, compressed, stored);
    if compressed {
      assert Out(dst[..], 0, size) == stored;
      CompressedAfter(stored, [], data);
      NoDictionary(history);
      WindowAccepts(stored, [], data, if info.linked then history else []);
    }
    C.OneBlock(BlockCodec, info, compressed, stored, history, data);
  }

  lemma SmallRun(data: seq<byte>)
    requires Lz4Compress.AllSame(data)
    ensures Lz4Compress.RunSize(|data|) < |data|
  {
  }

  lemma NoDictionary(h: seq<byte>)
    ensures C.EndsWith(h, []) && Last([], WINDOW) == []
  {
  }

  /** The blocks that the codec knows, and what it makes of them. */
  lemma CodecIs(block: seq<byte>, dict: seq<byte>)
    ensures BlockCodec(block, dict).Some? ==> BlockAfter(block, dict, BlockCodec(block, dict).value)
    ensures forall data: seq<byte> | BlockAfter(block, dict, data) :: BlockCodec(block, dict) == Some(data)
  {
    hide DecodeFrom, WellFormedFrom;
    if BlockCodec(block, dict).Some? {
      DecodeExtends(block, 0, dict);
      var r := DecodeFrom(block, 0, dict).value;
      assert r == dict + r[|dict|..];
    }
    forall data: seq<byte> | BlockAfter(block, dict, data) ensures BlockCodec(block, dict) == Some(data) {
      assert (dict + data)[|dict|..] == data;
    }
  }

  lemma {:induction false} DecodeExtends(src: seq<byte>, ip: nat, out: seq<byte>)
    requires ip <= |src|
    ensures DecodeFrom(src, ip, out).Some? ==> out <= DecodeFrom(src, ip, out).value
    decreases |src| - ip
  {
    hide ItemAt, CopyMatch;
    if ip < |src| {
      var item := ItemAt(src, ip);
      if item.Item? {
        var literals := src[item.start..item.start + item.length];
        if item.offset <= |out + literals| {
          CopyMatchExtends(out + literals, item.offset, item.matchLength);
          DecodeExtends(src, item.next, CopyMatch(out + literals, item.offset, item.matchLength));
        }
      }
    }
  }

  lemma {:induction false} CopyMatchExtends(out: seq<byte>, offset: nat, n: nat)
    requires offset <= |out|
    ensures out <= CopyMatch(out, offset, n)
    decreases n
  {
    if n > 0 { CopyMatchExtends(out + [if offset == 0 then 0 else out[|out| - offset]], offset, n - 1); }
  }

  /** LZ4_decompress_safe_usingDict, as LZ4F_decompress calls it, is that codec: of every block that the
      codec knows, and that fits, it makes what the codec says, with the dictionary in front of the
      output or anywhere else. */
  method DecodeAsCodec(block: seq<byte>, memory: array<byte>, dest: nat, maxOutputSize: nat, dictStart: nat, dictSize: nat) returns (r: int)
    requires dest + maxOutputSize <= memory.Length && dictStart + dictSize <= memory.Length && maxOutputSize > 0
    requires dictSize > 0 ==> dictStart + dictSize <= dest || dest + maxOutputSize <= dictStart
    modifies memory
    ensures Untouched(memory[..], old(memory[..]), dest, dest + maxOutputSize) && r <= maxOutputSize
    ensures var data := BlockCodec(block, old(memory[dictStart..dictStart + dictSize]));
      data.Some? && |data.value| <= maxOutputSize ==> r == |data.value| && data == Some(memory[dest..dest + r])
  {
    hide DecodeFrom, WellFormedFrom, BlockCodec, Untouched;
    ghost var dict := memory[dictStart..dictStart + dictSize];
    CodecIs(block, dict);
    r := Lz4Decompress.DecompressUsingDict(block, memory, dest, maxOutputSize, dictStart, dictSize);
    ghost var data := BlockCodec(block, dict);
    if data.Some? && |data.value| <= maxOutputSize {
      assert WellFormedFrom(block, 0, dictSize, dictSize + |data.value|);
      assert Lz4Decompress.TotalOf(block, dictSize) == dictSize + |data.value|;
      SameRest(dict, data.value, memory[dest..dest + r]);
    }
  }

  lemma SameRest(dict: seq<byte>, a: seq<byte>, b: seq<byte>)
    requires dict + a == dict + b
    ensures a == b
  {
    assert (dict + a)[|dict|..] == a && (dict + b)[|dict|..] == b;
  }
}
