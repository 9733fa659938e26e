/** Writing LZ4 frames: the frame header, runs of blocks and what they add to the content, and the
    bound on the output of LZ4F_compressUpdate and LZ4F_compressFrame. */
module FrameEncoding {
  import opened Lz4Block
  import opened Slices
  import opened FrameFormat

  const U32_RANGE := 0x1_0000_0000
  const U64_RANGE := 0x1_0000_0000_0000_0000

  // --------------------------------------------------------------- integers

  function Byte(v: nat): byte { v % 256 }

  function WriteLE32(v: nat): (s: seq<byte>)
    ensures |s| == 4
  {
    [Byte(v), Byte(v / 256), Byte(v / 65536), Byte(v / 16777216)]
  }

  function WriteLE64(v: nat): (s: seq<byte>)
    ensures |s| == 8
  {
    WriteLE32(v % U32_RANGE) + WriteLE32(v / U32_RANGE)
  }

  lemma Bytes32(v: nat)
    requires v < U32_RANGE
    ensures v == v % 256 + 256 * (v / 256 % 256 + 256 * (v / 65536 % 256 + 256 * (v / 16777216 % 256)))
  {
    var a, b := v / 256, v / 65536;
    assert b == a / 256 && v / 16777216 == b / 256;
  }

  /** What is written is read back, wherever it stands. */
  lemma ReadWritten32(x: seq<byte>, p: nat, v: nat)
    requires v < U32_RANGE && p + 4 <= |x| && x[p..p + 4] == WriteLE32(v)
    ensures ReadLE32(x, p) == v
  {
    var w := x[p..p + 4];
    assert x[p] == w[0] && x[p + 1] == w[1] && x[p + 2] == w[2] && x[p + 3] == w[3];
    Bytes32(v);
  }

  lemma ReadWritten64(x: seq<byte>, p: nat, v: nat)
    requires v < U64_RANGE && p + 8 <= |x| && x[p..p + 8] == WriteLE64(v)
    ensures ReadLE64(x, p) == v
  {
    var w := x[p..p + 8];
    assert w[..4] == WriteLE32(v % U32_RANGE) && w[4..] == WriteLE32(v / U32_RANGE);
    assert x[p..p + 4] == w[..4] && x[p + 4..p + 8] == w[4..];
    ReadWritten32(x, p, v % U32_RANGE);
    ReadWritten32(x, p + 4, v / U32_RANGE);
  }

  // --------------------------------------------------------- runs of blocks

  /** The history after a run of whole blocks. */
  function Decoded(codec: Codec, info: Info, s: seq<byte>, history: seq<byte>): Option<seq<byte>>
    decreases |s|
  {
    if s == [] then Some(history)
    else match BlockAt(info, s, 0)
      case Block(_, _, next) =>
        (match BlockContent(codec, info, BlockAt(info, s, 0), history)
         case Some(out) => Decoded(codec, info, s[next..], history + out)
         case None => None)
      case _ => None
  }

  lemma SliceParts(x: seq<byte>, p: nat, s: seq<byte>, i: nat, j: nat)
    requires p + |s| <= |x| && x[p..p + |s|] == s && i <= j <= |s|
    ensures x[p + i..p + j] == s[i..j]
  {
    SliceOfSlice(x, p, p + |s|, i, j, p + i, p + j);
  }

  lemma ReadInside(x: seq<byte>, p: nat, s: seq<byte>, i: nat)
    requires p + |s| <= |x| && x[p..p + |s|] == s && i + 4 <= |s|
    ensures ReadLE32(x, p + i) == ReadLE32(s, i)
  {
    SliceParts(x, p, s, i, i + 4);
    ReadSame(x, p + i, s, i);
  }

  /** A block reads the same inside a longer input. */
  lemma BlockInside(info: Info, x: seq<byte>, p: nat, s: seq<byte>)
    requires Inside(x, p, s) && BlockAt(info, s, 0).Block?
    ensures var b := BlockAt(info, s, 0); b.next <= |s| && BlockAt(info, x, p) == Block(b.compressed, b.data, p + b.next)
  {
    hide ReadLE32, Checksum;
    var b := BlockAt(info, s, 0);
    ReadInside(x, p, s, 0);
    var e := BLOCK_HEADER_SIZE + |b.data|;
    SliceParts(x, p, s, BLOCK_HEADER_SIZE, e);
    if info.blockChecksum {
      ReadInside(x, p, s, e);
    }
  }

  lemma BlocksStep(codec: Codec, info: Info, x: seq<byte>, p: nat, b: Block, history: seq<byte>, out: seq<byte>)
    requires BlockAt(info, x, p) == b && b.Block? && BlockContent(codec, info, b, history) == Some(out)
    ensures Blocks(codec, info, x, p, history) == Blocks(codec, info, x, b.next, history + out)
  {
    hide BlockAt, BlockContent;
  }

  lemma DecodedStep(codec: Codec, info: Info, s: seq<byte>, history: seq<byte>) returns (out: seq<byte>)
    requires s != [] && Decoded(codec, info, s, history).Some?
    ensures var b := BlockAt(info, s, 0);
      && b.Block? && BlockContent(codec, info, b, history) == Some(out) && 0 < b.next <= |s|
      && Decoded(codec, info, s[b.next..], history + out) == Decoded(codec, info, s, history)
  {
    hide BlockContent, ReadLE32, Checksum;
    out := BlockContent(codec, info, BlockAt(info, s, 0), history).value;
  }

  lemma SameContent(codec: Codec, info: Info, b: Block, p: nat, history: seq<byte>)
    requires b.Block?
    ensures BlockContent(codec, info, Block(b.compressed, b.data, p + b.next), history) == BlockContent(codec, info, b, history)
  {
  }

  /** s stands at position p of x. */
  ghost predicate Inside(x: seq<byte>, p: nat, s: seq<byte>) {
    p + |s| <= |x| && x[p..p + |s|] == s
  }

  lemma RestInside(x: seq<byte>, p: nat, s: seq<byte>, q: nat, rest: seq<byte>)
    requires Inside(x, p, s) && p <= q <= p + |s| && rest == s[q - p..]
    ensures q + |rest| == p + |s| && Inside(x, q, rest)
  {
    SliceParts(x, p, s, q - p, |s|);
  }

  /** The meaning of a frame passes through a run of blocks. */
  lemma {:induction false} BlocksThrough(codec: Codec, info: Info, x: seq<byte>, p: nat, s: seq<byte>, e: nat, history: seq<byte>, after: seq<byte>)
    requires Inside(x, p, s) && e == p + |s| && Decoded(codec, info, s, history) == Some(after)
    ensures Blocks(codec, info, x, p, history) == Blocks(codec, info, x, e, after)
    decreases |s|
  {
    if s != [] {
      hide BlockAt, BlockContent, Blocks, Decoded, Inside;
      var out, rest, q := OneThrough(codec, info, x, p, s, history);
      RestInside(x, p, s, q, rest);
      var mid := history + out;
      BlocksThrough(codec, info, x, q, rest, e, mid, after);
    }
  }

  lemma OneThrough(codec: Codec, info: Info, x: seq<byte>, p: nat, s: seq<byte>, history: seq<byte>) returns (out: seq<byte>, rest: seq<byte>, q: nat)
    requires Inside(x, p, s) && s != [] && Decoded(codec, info, s, history).Some?
    ensures p < q <= p + |s| && rest == s[q - p..] && Decoded(codec, info, rest, history + out) == Decoded(codec, info, s, history)
    ensures Blocks(codec, info, x, p, history) == Blocks(codec, info, x, q, history + out)
  {
    hide BlockAt, BlockContent, Blocks, Decoded, Inside;
    out := DecodedStep(codec, info, s, history);
    var b := BlockAt(info, s, 0);
    BlockInside(info, x, p, s);
    SameContent(codec, info, b, p, history);
    q, rest := p + b.next, s[b.next..];
    BlocksStep(codec, info, x, p, Block(b.compressed, b.data, q), history, out);
  }

  /** Runs of blocks can be joined. */
  lemma {:induction false} DecodedAppend(codec: Codec, info: Info, s: seq<byte>, t: seq<byte>, history: seq<byte>, mid: seq<byte>)
    requires Decoded(codec, info, s, history) == Some(mid)
    ensures Decoded(codec, info, s + t, history) == Decoded(codec, info, t, mid)
    decreases |s|
  {
    var st := s + t;
    if s == [] {
      assert st == t;
    } else {
      var b := BlockAt(info, s, 0);
      assert st[0..0 + |s|] == s;
      BlockInside(info, st, 0, s);
      hide BlockAt;
      var out := BlockContent(codec, info, b, history).value;
      assert st[b.next..] == s[b.next..] + t;
      DecodedAppend(codec, info, s[b.next..], t, history + out, mid);
    }
  }

  // --------------------------------------------------------- the frame header

  /** What LZ4F_compressBegin is asked for. Block size identifier 0 stands for the default. */
  datatype Preferences = Preferences(linked: bool, blockChecksum: bool, contentChecksum: bool, contentSize: nat, blockSizeId: nat, dictId: nat, autoFlush: bool)

  ghost predicate ValidPreferences(prefs: Preferences) {
    (prefs.blockSizeId == 0 || 4 <= prefs.blockSizeId <= 7) && prefs.contentSize < U64_RANGE && prefs.dictId < U32_RANGE
  }

  const BLOCKSIZEID_DEFAULT := 4

  function BlockSizeId(prefs: Preferences): (id: nat)
  {
    if prefs.blockSizeId == 0 then BLOCKSIZEID_DEFAULT else prefs.blockSizeId
  }

  /** LZ4F_getBlockSize */
  function BlockSizeOf(prefs: Preferences): (n: nat)
    requires prefs.blockSizeId == 0 || 4 <= prefs.blockSizeId <= 7
    ensures 0x1_0000 <= n <= 0x40_0000
  {
    MaxBlockSize(BlockSizeId(prefs))
  }

  function InfoFor(prefs: Preferences): Info
    requires prefs.blockSizeId == 0 || 4 <= prefs.blockSizeId <= 7
  {
    Info(prefs.linked, prefs.blockChecksum, prefs.contentChecksum, prefs.contentSize, BlockSizeOf(prefs), prefs.dictId)
  }

  function Bit(b: bool): nat { if b then 1 else 0 }

  function FlagByte(prefs: Preferences): byte {
    64 + 32 * Bit(!prefs.linked) + 16 * Bit(prefs.blockChecksum) + 8 * Bit(prefs.contentSize > 0) + 4 * Bit(prefs.contentChecksum) + Bit(prefs.dictId > 0)
  }

  lemma FlagBits(prefs: Preferences)
    ensures var f := FlagByte(prefs);
      && f / 64 == 1 && !Flag(f, 2) && (Flag(f, 32) <==> !prefs.linked) && (Flag(f, 16) <==> prefs.blockChecksum)
      && (Flag(f, 8) <==> prefs.contentSize > 0) && (Flag(f, 4) <==> prefs.contentChecksum) && (Flag(f, 1) <==> prefs.dictId > 0)
  {
  }

  /** The descriptor, and the header that LZ4F_compressBegin writes. */
  function Descriptor(prefs: Preferences): (s: seq<byte>)
    requires prefs.blockSizeId == 0 || 4 <= prefs.blockSizeId <= 7
  {
    [FlagByte(prefs), 16 * BlockSizeId(prefs)]
    + (if prefs.contentSize > 0 then WriteLE64(prefs.contentSize) else [])
    + (if prefs.dictId > 0 then WriteLE32(prefs.dictId) else [])
  }

  function Header(prefs: Preferences): (s: seq<byte>)
    requires prefs.blockSizeId == 0 || 4 <= prefs.blockSizeId <= 7
  {
    WriteLE32(MAGIC) + Descriptor(prefs) + [HeaderChecksum(Descriptor(prefs))]
  }

  /** Where the parts of a header are. */
  lemma HeaderPlaces(prefs: Preferences, x: seq<byte>, d: seq<byte>, n: nat)
    requires ValidPreferences(prefs) && Header(prefs) <= x && d == Descriptor(prefs) && n == 5 + |d|
    ensures |Header(prefs)| == n <= |x| && x[0..4] == WriteLE32(MAGIC) && x[4..n - 1] == d && x[n - 1] as nat == HeaderChecksum(d)
    ensures |d| >= 2 && x[4] == d[0] && x[5] == d[1]
  {
    hide WriteLE32, Checksum, Descriptor;
    var hd := Header(prefs);
    assert x[..n] == hd;
    assert x[0..4] == hd[0..4] && x[4..n - 1] == hd[4..n - 1];
    DescriptorFront(prefs);
    assert x[4] == x[4..n - 1][0] && x[5] == x[4..n - 1][1];
  }

  lemma DescriptorFront(prefs: Preferences)
    requires ValidPreferences(prefs)
    ensures var d := Descriptor(prefs); |d| >= 2 && d[0] == FlagByte(prefs) && d[1] == 16 * BlockSizeId(prefs)
  {
  }

  lemma SizeRead(prefs: Preferences, x: seq<byte>, d: seq<byte>, n: nat)
    requires ValidPreferences(prefs) && d == Descriptor(prefs) && n == 5 + |d| <= |x| && x[4..n - 1] == d && prefs.contentSize > 0
    ensures |d| >= 10 && ReadLE64(x, 6) == prefs.contentSize
  {
    hide ReadLE64, WriteLE64, WriteLE32, FlagByte;
    assert d[2..10] == WriteLE64(prefs.contentSize);
    SliceOfSlice(x, 4, n - 1, 2, 10, 6, 14);
    ReadWritten64(x, 6, prefs.contentSize);
  }

  lemma DictIdRead(prefs: Preferences, x: seq<byte>, d: seq<byte>, n: nat)
    requires ValidPreferences(prefs) && d == Descriptor(prefs) && n == 5 + |d| <= |x| && x[4..n - 1] == d && prefs.dictId > 0
    ensures n >= 11 && ReadLE32(x, n - 5) == prefs.dictId
  {
    hide ReadLE32, WriteLE64, WriteLE32, FlagByte;
    var a, b := |d| - 4, |d|;
    assert d[a..b] == WriteLE32(prefs.dictId);
    SliceOfSlice(x, 4, n - 1, a, b, n - 5, n - 1);
    ReadWritten32(x, n - 5, prefs.dictId);
  }

  lemma DescriptorSize(prefs: Preferences)
    requires ValidPreferences(prefs)
    ensures HeaderSize(FlagByte(prefs)) == 5 + |Descriptor(prefs)| && Supported(FlagByte(prefs), 16 * BlockSizeId(prefs))
  {
    hide FlagByte, Flag;
    FlagBits(prefs);
  }

  lemma MagicRead(x: seq<byte>)
    requires |x| >= 4 && x[0..4] == WriteLE32(MAGIC)
    ensures ReadLE32(x, 0) == MAGIC && !IsSkippable(x)
  {
    hide ReadLE32, WriteLE32;
    ReadWritten32(x, 0, MAGIC);
  }

  /** A frame header is read back as what was asked for. */
  lemma HeaderRoundTrip(prefs: Preferences, x: seq<byte>)
    requires ValidPreferences(prefs) && Header(prefs) <= x
    ensures HasHeader(x) && !IsSkippable(x) && HeaderSize(x[4]) == |Header(prefs)| <= HEADER_SIZE_MAX && InfoOf(x) == InfoFor(prefs)
  {
    hide ReadLE32, ReadLE64, WriteLE32, WriteLE64, Checksum, FlagByte, Flag, Header, Descriptor, IsSkippable, Supported, HeaderSize;
    var d := Descriptor(prefs);
    var n := 5 + |d|;
    HeaderPlaces(prefs, x, d, n);
    MagicRead(x);
    FlagBits(prefs);
    DescriptorFront(prefs);
    DescriptorSize(prefs);
    if prefs.contentSize > 0 { SizeRead(prefs, x, d, n); }
    if prefs.dictId > 0 { DictIdRead(prefs, x, d, n); }
  }

  /** The whole frame: header, a run of blocks, end mark, and checksum. */
  function Suffix(info: Info, content: seq<byte>): seq<byte> {
    WriteLE32(0) + (if info.contentChecksum then WriteLE32(Checksum(content)) else [])
  }

  lemma WholeFrame(codec: Codec, prefs: Preferences, blocks: seq<byte>, content: seq<byte>)
    requires ValidPreferences(prefs) && Decoded(codec, InfoFor(prefs), blocks, []) == Some(content)
    requires prefs.contentSize == 0 || prefs.contentSize == |content|
    ensures var x := Header(prefs) + blocks + Suffix(InfoFor(prefs), content); Frame(codec, x) == Some((content, |x|))
  {
    hide ReadLE32, ReadLE64, WriteLE32, WriteLE64, Checksum, Header, InfoOf, HasHeader, IsSkippable, Suffix;
    var info := InfoFor(prefs);
    var hd := Header(prefs);
    var x := hd + blocks + Suffix(info, content);
    var p, e := |hd|, |hd| + |blocks|;
    HeaderRoundTrip(prefs, x);
    assert x[p..e] == blocks && x[e..] == Suffix(info, content);
    BlocksThrough(codec, info, x, p, blocks, e, [], content);
    SuffixRead(x, e, info, content);
  }

  lemma SuffixRead(x: seq<byte>, e: nat, info: Info, content: seq<byte>)
    requires e <= |x| && x[e..] == Suffix(info, content)
    ensures e + 4 <= |x| && ReadLE32(x, e) == 0
    ensures if info.contentChecksum then e + 8 == |x| && ReadLE32(x, e + 4) == Checksum(content) else e + 4 == |x|
  {
    hide ReadLE32, WriteLE32, Checksum;
    var q := e + 4;
    assert x[e..q] == x[e..][..4] == WriteLE32(0);
    ReadWritten32(x, e, 0);
    if info.contentChecksum {
      ChecksumRange(content);
      assert x[q..q + 4] == x[e..][4..8] == WriteLE32(Checksum(content));
      ReadWritten32(x, q, Checksum(content));
    }
  }

  lemma ChecksumRange(s: seq<byte>)
    ensures Checksum(s) < U32_RANGE
  {
  }

  // -------------------------------------------------------------- the bound

  /** What nbFull full blocks and one of `last` bytes take at most, and the end of the frame. */
  function BlocksBound(prefs: Preferences, blockSize: nat, nbBlocks: nat, nbFull: nat, last: nat): nat {
    (BLOCK_HEADER_SIZE + CHECKSUM_SIZE * Bit(prefs.blockChecksum)) * nbBlocks + blockSize * nbFull + last
    + (BLOCK_HEADER_SIZE + CHECKSUM_SIZE * Bit(prefs.contentChecksum))
  }

  /** The size of the last block, when it is to be written. */
  function LastSize(prefs: Preferences, srcSize: nat, total: nat, blockSize: nat): nat
    requires blockSize > 0
  {
    if prefs.autoFlush || srcSize == 0 then total % blockSize else 0
  }

  function Buffered(alreadyBuffered: nat, blockSize: nat): nat
    requires blockSize > 0
  {
    if alreadyBuffered < blockSize - 1 then alreadyBuffered else blockSize - 1
  }

  /** LZ4F_compressBound_internal; the numbers of blocks are 32 bits wide. */
  function CompressBound(srcSize: nat, prefs: Preferences, alreadyBuffered: nat): nat
    requires prefs.blockSizeId == 0 || 4 <= prefs.blockSizeId <= 7
  {
    var blockSize := BlockSizeOf(prefs);
    var total := srcSize + Buffered(alreadyBuffered, blockSize);
    var nbFull := total / blockSize % U32_RANGE;
    var last := LastSize(prefs, srcSize, total, blockSize);
    BlocksBound(prefs, blockSize, (nbFull + Bit(last > 0)) % U32_RANGE, nbFull, last)
  }

  /** The most that LZ4F_compressUpdate can write, and LZ4F_compressEnd at once after it. */
  function WorstCase(srcSize: nat, prefs: Preferences, alreadyBuffered: nat): nat
    requires prefs.blockSizeId == 0 || 4 <= prefs.blockSizeId <= 7
  {
    var blockSize := BlockSizeOf(prefs);
    var total := srcSize + Buffered(alreadyBuffered, blockSize);
    var nbFull := total / blockSize;
    var last := LastSize(prefs, srcSize, total, blockSize);
    BlocksBound(prefs, blockSize, nbFull + Bit(last > 0), nbFull, last)
  }

  /** The number of blocks fits into 32 bits. */
  predicate Countable(srcSize: nat, prefs: Preferences, alreadyBuffered: nat)
    requires prefs.blockSizeId == 0 || 4 <= prefs.blockSizeId <= 7
  {
    var blockSize := BlockSizeOf(prefs);
    var total := srcSize + Buffered(alreadyBuffered, blockSize);
    total / blockSize + Bit(LastSize(prefs, srcSize, total, blockSize) > 0) < U32_RANGE
  }

  lemma Grows(c: nat, m: nat, n: nat)
    requires c > 0 && m < n
    ensures c * m < c * n
  {
  }

  lemma GrowsWeakly(c: nat, m: nat, n: nat)
    requires m <= n
    ensures c * m <= c * n
  {
  }

  /** What LZ4F_compressUpdate writes when no block gets smaller. */
  function UpdateSize(srcSize: nat, prefs: Preferences, buffered: nat): nat
    requires prefs.blockSizeId == 0 || 4 <= prefs.blockSizeId <= 7
  {
    var blockSize := BlockSizeOf(prefs);
    var total := srcSize + buffered;
    BlocksSize(prefs, blockSize, total / blockSize, if prefs.autoFlush then total % blockSize else 0)
  }

  function BlocksSize(prefs: Preferences, blockSize: nat, nbFull: nat, last: nat): nat {
    (BLOCK_HEADER_SIZE + CHECKSUM_SIZE * Bit(prefs.blockChecksum)) * (nbFull + Bit(last > 0)) + blockSize * nbFull + last
  }

  /** The bound is the worst case exactly for inputs whose blocks can be counted in 32 bits. For all
      others (2^48 bytes in blocks of 64 KB) it is less than what is written when no block gets smaller. */
  lemma BoundHolds(srcSize: nat, prefs: Preferences, buffered: nat)
    requires (prefs.blockSizeId == 0 || 4 <= prefs.blockSizeId <= 7) && buffered < BlockSizeOf(prefs)
    ensures Countable(srcSize, prefs, buffered) <==> CompressBound(srcSize, prefs, buffered) == WorstCase(srcSize, prefs, buffered)
    ensures Countable(srcSize, prefs, buffered) <==> UpdateSize(srcSize, prefs, buffered) <= CompressBound(srcSize, prefs, buffered)
    ensures !Countable(srcSize, prefs, buffered) ==> UpdateSize(srcSize, prefs, buffered) > CompressBound(srcSize, prefs, buffered) + HEADER_SIZE_MAX
  {
    hide BlocksBound, BlocksSize, MaxBlockSize;
    var blockSize := BlockSizeOf(prefs);
    var total := srcSize + buffered;
    var last := LastSize(prefs, srcSize, total, blockSize);
    if srcSize == 0 { SmallDivision(buffered, blockSize); }
    BoundCases(prefs, blockSize, total / blockSize, last);
    UpdateCases(prefs, blockSize, total / blockSize, last, if prefs.autoFlush then total % blockSize else 0);
  }

  /** 2^48 bytes in blocks of 64 KB: the bound is the four bytes of the end mark. */
  lemma BoundFails(prefs: Preferences)
    requires prefs == Preferences(false, false, false, 0, 4, 0, false)
    ensures CompressBound(0x1_0000_0000_0000, prefs, 0) == 4
    ensures UpdateSize(0x1_0000_0000_0000, prefs, 0) == 0x1_0000_0000_0000 + 4 * 0x1_0000_0000
  {
  }

  lemma UpdateCases(prefs: Preferences, blockSize: nat, full: nat, last: nat, written: nat)
    requires written == last || written == 0
    ensures var nbFull := full % U32_RANGE; var nb := full + Bit(last > 0);
      var bound := BlocksBound(prefs, blockSize, (nbFull + Bit(last > 0)) % U32_RANGE, nbFull, last);
      if nb < U32_RANGE then BlocksSize(prefs, blockSize, full, written) <= bound
      else written == last ==> BlocksSize(prefs, blockSize, full, written) > bound + HEADER_SIZE_MAX
  {
    var more := Bit(last > 0);
    var nbFull := full % U32_RANGE;
    var nb, k := full + more, (nbFull + more) % U32_RANGE;
    var unit := BLOCK_HEADER_SIZE + CHECKSUM_SIZE * Bit(prefs.blockChecksum);
    if nb < U32_RANGE {
      assert nbFull == full && k == nb;
      GrowsWeakly(unit, full + Bit(written > 0), nb);
    } else {
      WrapsBelow(nb, k, full, nbFull, more);
      if written == last { FarOver(unit, blockSize, k, nb, nbFull, full, last, BLOCK_HEADER_SIZE + CHECKSUM_SIZE * Bit(prefs.contentChecksum)); }
    }
  }

  lemma FarOver(unit: nat, size: nat, k: nat, nb: nat, nbFull: nat, full: nat, last: nat, end: nat)
    requires unit >= 4 && k + U32_RANGE <= nb && nbFull <= full && end <= 8
    ensures unit * nb + size * full + last > unit * k + size * nbFull + last + end + HEADER_SIZE_MAX
  {
    FarMore(unit, k, nb);
    GrowsWeakly(size, nbFull, full);
  }

  lemma WrapsBelow(nb: nat, k: nat, full: nat, nbFull: nat, more: nat)
    requires nbFull == full % U32_RANGE && nb == full + more >= U32_RANGE && more <= 1 && k == (nbFull + more) % U32_RANGE
    ensures k + U32_RANGE <= nb && nbFull <= full
  {
  }

  lemma FarMore(c: nat, m: nat, n: nat)
    requires c >= 4 && m + U32_RANGE <= n
    ensures c * m + 4 * U32_RANGE <= c * n
  {
    GrowsWeakly(c, m + U32_RANGE, n);
    assert c * (m + U32_RANGE) == c * m + c * U32_RANGE;
  }

  lemma BoundCases(prefs: Preferences, blockSize: nat, full: nat, last: nat)
    ensures var nbFull := full % U32_RANGE; var nb := full + Bit(last > 0);
      var bound := BlocksBound(prefs, blockSize, (nbFull + Bit(last > 0)) % U32_RANGE, nbFull, last);
      var worst := BlocksBound(prefs, blockSize, nb, full, last);
      if nb < U32_RANGE then bound == worst else bound < worst
  {
    var nbFull := full % U32_RANGE;
    var nb := full + Bit(last > 0);
    var k := (nbFull + Bit(last > 0)) % U32_RANGE;
    assert nbFull <= full && k <= nbFull + Bit(last > 0) <= nb;
    if nb < U32_RANGE {
      assert nbFull == full && k == nb;
    } else {
      assert k < U32_RANGE <= nb;
      Grows(BLOCK_HEADER_SIZE + CHECKSUM_SIZE * Bit(prefs.blockChecksum), k, nb);
      GrowsWeakly(blockSize, nbFull, full);
    }
  }

  // -------------------------------------------------------- a frame at once

  /** LZ4F_compressFrameBound */
  function CompressFrameBound(srcSize: nat, prefs: Preferences): nat
    requires prefs.blockSizeId == 0 || 4 <= prefs.blockSizeId <= 7
  {
    HEADER_SIZE_MAX + CompressBound(srcSize, prefs.(autoFlush := true), 0)
  }

  /** A block size that serves: the one asked for, or one that is smaller and still holds all. */
  ghost predicate ServesAs(id: nat, requested: nat, srcSize: nat) {
    id == requested || (4 <= id < requested <= 7 && srcSize <= MaxBlockSize(id))
  }

  /** LZ4F_optimalBSID: the smallest block size that holds all of the input, up to the one asked for. */
  method OptimalBlockSizeId(requested: nat, srcSize: nat) returns (proposed: nat)
    requires requested == 0 || 4 <= requested <= 7
    ensures ServesAs(proposed, requested, srcSize)
    ensures forall id :: 4 <= id < proposed ==> srcSize > MaxBlockSize(id)
  {
    proposed := 4;
    var maxBlockSize := 0x1_0000;
    while requested > proposed
      invariant 4 <= proposed <= 7 && maxBlockSize == MaxBlockSize(proposed) && (requested >= 4 ==> proposed <= requested)
      invariant forall id :: 4 <= id < proposed ==> srcSize > MaxBlockSize(id)
      decreases requested - proposed
    {
      if srcSize <= maxBlockSize { return; }
      proposed, maxBlockSize := proposed + 1, maxBlockSize * 4;
    }
    proposed := requested;
  }

  /** The preferences for a whole frame at once have the same bound as those given. */
  lemma SameBound(srcSize: nat, prefs: Preferences, id: nat, linked: bool, contentSize: nat)
    requires ValidPreferences(prefs) && ServesAs(id, prefs.blockSizeId, srcSize) && contentSize < U64_RANGE
    ensures var p := prefs.(blockSizeId := id, linked := linked, contentSize := contentSize, autoFlush := true);
      && CompressFrameBound(srcSize, p) == CompressFrameBound(srcSize, prefs)
      && (Countable(srcSize, prefs.(autoFlush := true), 0) <==> Countable(srcSize, p, 0))
  {
    hide CompressBound, Countable;
    if id == prefs.blockSizeId {
      BoundBySizes(srcSize, prefs.(blockSizeId := id, linked := linked, contentSize := contentSize, autoFlush := true), prefs.(autoFlush := true));
    } else {
      OneBlockBound(srcSize, prefs.(autoFlush := true));
      OneBlockBound(srcSize, prefs.(blockSizeId := id, linked := linked, contentSize := contentSize, autoFlush := true));
    }
  }

  /** Of the preferences only the block size, the checksums and autoFlush matter. */
  lemma BoundBySizes(srcSize: nat, p: Preferences, q: Preferences)
    requires ValidPreferences(p) && ValidPreferences(q) && BlockSizeOf(p) == BlockSizeOf(q) && p.autoFlush == q.autoFlush
    requires p.blockChecksum == q.blockChecksum && p.contentChecksum == q.contentChecksum
    ensures CompressBound(srcSize, p, 0) == CompressBound(srcSize, q, 0) && (Countable(srcSize, p, 0) <==> Countable(srcSize, q, 0))
  {
  }

  /** What fits into one block takes one block. */
  lemma OneBlockBound(srcSize: nat, p: Preferences)
    requires ValidPreferences(p) && p.autoFlush && srcSize <= BlockSizeOf(p)
    ensures Countable(srcSize, p, 0)
    ensures CompressBound(srcSize, p, 0)
         == (BLOCK_HEADER_SIZE + CHECKSUM_SIZE * Bit(p.blockChecksum)) * Bit(srcSize > 0) + srcSize + BLOCK_HEADER_SIZE + CHECKSUM_SIZE * Bit(p.contentChecksum)
  {
    hide MaxBlockSize;
    var size := BlockSizeOf(p);
    if srcSize < size {
      SmallDivision(srcSize, size);
    } else {
      Itself(size);
      OneFull(p, size);
    }
  }

  lemma OneFull(p: Preferences, size: nat)
    ensures BlocksBound(p, size, 1, 1, 0)
         == (BLOCK_HEADER_SIZE + CHECKSUM_SIZE * Bit(p.blockChecksum)) + size + BLOCK_HEADER_SIZE + CHECKSUM_SIZE * Bit(p.contentChecksum)
  {
  }

  lemma SmallDivision(n: nat, d: nat)
    requires n < d
    ensures n / d == 0 && n % d == n
  {
  }

  lemma Itself(d: nat)
    requires d > 0
    ensures d / d == 1 && d % d == 0
  {
  }
}
