/** The LZ4 frame format: frame header, data blocks, end mark and checksums, and what a frame
    means. The block codec is a function of a block and the last 64 KB before it. */
module FrameFormat {
  import opened Lz4Block
  import XxHash32

  const WINDOW := 65536
  const MAGIC := 0x184D2204
  /** The first of the sixteen magic numbers of skippable frames. */
  const SKIPPABLE_START := 0x184D2A50
  const SKIPPABLE_HEADER := 8
  const BLOCK_HEADER_SIZE := 4
  const CHECKSUM_SIZE := 4
  const HEADER_SIZE_MIN := 7
  const HEADER_SIZE_MAX := 19
  const UNCOMPRESSED_FLAG := 0x8000_0000

  /** What a compressed block stands for, given the history it may refer to. */
  type Codec = (seq<byte>, seq<byte>) -> Option<seq<byte>>

  /** A frame's descriptor. A content size of 0 stands for "unknown". */
  datatype Info = Info(linked: bool, blockChecksum: bool, contentChecksum: bool, contentSize: nat, maxBlock: nat, dictId: nat)

  /** The last n bytes, or all. */
  function Last(s: seq<byte>, n: nat): (r: seq<byte>)
    ensures |r| == if |s| < n then |s| else n
  {
    if |s| <= n then s else s[|s| - n..]
  }

  function ReadLE32(s: seq<byte>, p: nat): (n: nat)
    requires p + 4 <= |s|
  {
    s[p] as int + 256 * (s[p + 1] as int + 256 * (s[p + 2] as int + 256 * s[p + 3] as int))
  }

  function ReadLE64(s: seq<byte>, p: nat): nat
    requires p + 8 <= |s|
  {
    ReadLE32(s, p) + 0x1_0000_0000 * ReadLE32(s, p + 4)
  }

  /** XXH32 with seed 0. */
  function Checksum(s: seq<byte>): (n: nat)
  {
    XxHash32.Hash32(0, s) as nat
  }

  function HeaderChecksum(s: seq<byte>): nat { Checksum(s) / 256 % 256 }

  // ------------------------------------------------------------------ blocks

  datatype Block = EndMark | Block(compressed: bool, data: seq<byte>, next: nat) | NotABlock

  /** The block at position p. */
  function BlockAt(info: Info, x: seq<byte>, p: nat): (b: Block) {
    if p + BLOCK_HEADER_SIZE > |x| then NotABlock else
      var header := ReadLE32(x, p);
      var size := header % UNCOMPRESSED_FLAG;
      var start := p + BLOCK_HEADER_SIZE;
      var end := start + size;
      var next := end + (if info.blockChecksum then CHECKSUM_SIZE else 0);
      if header == 0 then EndMark
      else if size > info.maxBlock || next > |x| then NotABlock
      else if info.blockChecksum && ReadLE32(x, end) != Checksum(x[start..end]) then NotABlock
      else Block(header < UNCOMPRESSED_FLAG, x[start..end], next)
  }

  /** The window that a block may refer to. */
  function Window(info: Info, history: seq<byte>): seq<byte> {
    if info.linked then Last(history, WINDOW) else []
  }

  /** What a block adds to the content. */
  function BlockContent(codec: Codec, info: Info, b: Block, history: seq<byte>): Option<seq<byte>>
    requires b.Block?
  {
    if !b.compressed then Some(b.data)
    else match codec(b.data, Window(info, history))
      case Some(out) => if |out| <= info.maxBlock then Some(out) else None
      case None => None
  }

  /** What follows the end mark: the content size must fit, and the content checksum. */
  function SuffixAt(info: Info, x: seq<byte>, p: nat, history: seq<byte>): Option<nat> {
    if info.contentSize != 0 && info.contentSize != |history| then None
    else if !info.contentChecksum then Some(p)
    else if p + CHECKSUM_SIZE <= |x| && ReadLE32(x, p) == Checksum(history) then Some(p + CHECKSUM_SIZE)
    else None
  }

  /** The content of the whole frame and where it ends, seen from the block at position p. */
  function Blocks(codec: Codec, info: Info, x: seq<byte>, p: nat, history: seq<byte>): (r: Option<(seq<byte>, nat)>)
    ensures r.Some? ==> history <= r.value.0 && r.value.1 <= |x|
    decreases if p < |x| then |x| - p else 0
  {
    match BlockAt(info, x, p)
    case NotABlock => None
    case EndMark =>
      (match SuffixAt(info, x, p + BLOCK_HEADER_SIZE, history)
       case Some(end) => Some((history, end))
       case None => None)
    case Block(_, _, next) =>
      (match BlockContent(codec, info, BlockAt(info, x, p), history)
       case Some(out) => Blocks(codec, info, x, next, history + out)
       case None => None)
  }

  /** A frame ends behind its end mark, and its content starts with what came before. */
  lemma {:induction false} BlocksEnd(codec: Codec, info: Info, x: seq<byte>, p: nat, history: seq<byte>)
    requires Blocks(codec, info, x, p, history).Some?
    ensures var (content, end) := Blocks(codec, info, x, p, history).value; history <= content && p + BLOCK_HEADER_SIZE <= end <= |x|
    decreases |x| - p
  {
    hide ReadLE32, Checksum;
    var b := BlockAt(info, x, p);
    if b.Block? {
      BlocksEnd(codec, info, x, b.next, history + BlockContent(codec, info, b, history).value);
    }
  }

  // ------------------------------------------------------------------ header

  function MaxBlockSize(id: nat): nat
    requires 4 <= id <= 7
  {
    if id == 4 then 0x1_0000 else if id == 5 then 0x4_0000 else if id == 6 then 0x10_0000 else 0x40_0000
  }

  predicate Flag(flg: byte, bit: nat)
    requires bit > 0
  {
    flg / bit % 2 == 1
  }

  /** The size of a frame header, from its FLG byte. */
  function HeaderSize(flg: byte): (n: nat)
    ensures HEADER_SIZE_MIN <= n <= HEADER_SIZE_MAX
  {
    HEADER_SIZE_MIN + (if Flag(flg, 8) then 8 else 0) + (if Flag(flg, 1) then 4 else 0)
  }

  /** The two descriptor bytes are ones this decoder supports. */
  predicate Supported(flg: byte, bd: byte) {
    flg / 64 == 1 && !Flag(flg, 2) && bd < 128 && bd / 16 >= 4 && bd % 16 == 0
  }

  function InfoOf(x: seq<byte>): Info
    requires |x| >= HEADER_SIZE_MIN && Supported(x[4], x[5]) && |x| >= HeaderSize(x[4])
  {
    var flg := x[4];
    Info(!Flag(flg, 32), Flag(flg, 16), Flag(flg, 4),
         if Flag(flg, 8) then ReadLE64(x, 6) else 0,
         MaxBlockSize(x[5] / 16),
         if Flag(flg, 1) then ReadLE32(x, HeaderSize(flg) - 5) else 0)
  }

  /** x starts with a frame header. */
  predicate HasHeader(x: seq<byte>) {
    && |x| >= HEADER_SIZE_MIN && ReadLE32(x, 0) == MAGIC && Supported(x[4], x[5])
    && |x| >= HeaderSize(x[4])
    && HeaderChecksum(x[4..HeaderSize(x[4]) - 1]) == x[HeaderSize(x[4]) - 1] as nat
  }

  /** x starts with the magic number of a frame that is to be skipped. */
  predicate IsSkippable(x: seq<byte>) {
    |x| >= 4 && ReadLE32(x, 0) / 16 == SKIPPABLE_START / 16
  }

  /** A skippable frame has no content; its size stands behind the magic number. */
  function Skipped(x: seq<byte>): (r: Option<(seq<byte>, nat)>)
    ensures r.Some? ==> SKIPPABLE_HEADER <= r.value.1 <= |x|
  {
    if |x| >= SKIPPABLE_HEADER && SKIPPABLE_HEADER + ReadLE32(x, 4) <= |x| then Some(([], SKIPPABLE_HEADER + ReadLE32(x, 4))) else None
  }

  /** The content of the frame that x starts with, and its end. */
  function Frame(codec: Codec, x: seq<byte>): (r: Option<(seq<byte>, nat)>)
    ensures r.Some? ==> r.value.1 <= |x|
  {
    if IsSkippable(x) then Skipped(x)
    else if HasHeader(x) then Blocks(codec, InfoOf(x), x, HeaderSize(x[4]), [])
    else None
  }

  // ---------------------------------------------------------------- windows

  lemma LastFewer(a: seq<byte>, b: seq<byte>, k: nat, k': nat)
    requires Last(a, k) == Last(b, k) && k' <= k
    ensures Last(a, k') == Last(b, k')
  {
    var t := Last(a, k);
    LastOfLast(a, k, k');
    LastOfLast(b, k, k');
  }

  lemma LastOfLast(a: seq<byte>, k: nat, k': nat)
    requires k' <= k
    ensures Last(Last(a, k), k') == Last(a, k')
  {
  }

  lemma LastAppend(a: seq<byte>, b: seq<byte>, k: nat, d: seq<byte>)
    requires Last(a, k) == Last(b, k)
    ensures Last(a + d, k + |d|) == Last(b + d, k + |d|)
  {
    AppendLast(a, k, d);
    AppendLast(b, k, d);
  }

  lemma AppendLast(a: seq<byte>, k: nat, d: seq<byte>)
    ensures Last(a + d, k + |d|) == Last(a, k) + d
  {
  }

  /** A long enough end has the same last bytes. */
  lemma LastOfEnd(a: seq<byte>, n: nat, k: nat)
    requires k <= n <= |a|
    ensures Last(a[|a| - n..], k) == Last(a, k)
  {
  }

  // ------------------------------------------------------------------ words

  /** Bytes read in place or in a copy are the same. */
  lemma ReadSame(a: seq<byte>, i: nat, b: seq<byte>, j: nat)
    requires i + 4 <= |a| && j + 4 <= |b| && a[i..i + 4] == b[j..j + 4]
    ensures ReadLE32(a, i) == ReadLE32(b, j)
  {
    assert a[i] == a[i..i + 4][0] && a[i + 1] == a[i..i + 4][1] && a[i + 2] == a[i..i + 4][2] && a[i + 3] == a[i..i + 4][3];
    assert b[j] == b[j..j + 4][0] && b[j + 1] == b[j..j + 4][1] && b[j + 2] == b[j..j + 4][2] && b[j + 3] == b[j..j + 4][3];
  }
}
