/** Blocks and frames byte by byte. */
module FrameVectors {
  import opened Lz4Block
  import opened FrameFormat
  import XxHash32
  import XxVectors32

  function RunOf(a: byte): (block: seq<byte>) {
    [0x1F, a, 1, 0, 0, 0x50, a, a, a, a, a]
  }

  lemma RunItems(a: byte)
    ensures ItemAt(RunOf(a), 0) == Item(1, 1, 1, 19, 5) && ItemAt(RunOf(a), 5) == Final(6, 5)
    ensures |RunOf(a)| == 11 && RunOf(a)[1..2] == [a] && RunOf(a)[6..11] == [a, a, a, a, a]
  {
  }

  lemma RunCopy(a: byte)
    ensures CopyMatch([a], 1, 19) == seq(20, _ => a)
  {
    var run: seq<byte> := seq(20, _ => a);
    assert Repeats(run, 1, 1);
    RepeatsIsCopyMatch(run, 1, 1);
    assert run[..1] == [a];
  }

  /** A literal, a match of 19 bytes at distance 1, and five literals: 25 times the same byte. */
  lemma RunBlock(a: byte)
    ensures DecodeFrom(RunOf(a), 0, []) == Some(seq(25, _ => a))
    ensures WellFormedFrom(RunOf(a), 0, 0, 25)
  {
    var block := RunOf(a);
    RunItems(a);
    RunCopy(a);
    hide ItemAt, RunOf, CopyMatch;
    assert [] + block[1..2] == [a];
    assert seq(20, _ => a) + block[6..11] == seq(25, _ => a);
  }

  /** An empty frame: independent blocks of at most 64 KB, and a content checksum. */
  const EMPTY_FRAME: seq<byte> := [0x04, 0x22, 0x4D, 0x18, 0x64, 0x40, 0xA7, 0, 0, 0, 0, 0x05, 0x5D, 0xCC, 0x02]

  lemma EmptyFrame(codec: Codec)
    ensures Frame(codec, EMPTY_FRAME) == Some(([], 15))
    ensures HasHeader(EMPTY_FRAME) && InfoOf(EMPTY_FRAME) == Info(false, false, true, 0, 0x1_0000, 0)
  {
    var x := EMPTY_FRAME;
    hide XxHash32.Hash32;
    assert x[4..6] == [0x64, 0x40];
    XxVectors32.Descriptor();
    XxVectors32.Empty();
    assert HeaderSize(x[4]) == 7;
    assert BlockAt(InfoOf(x), x, 7) == EndMark;
    assert SuffixAt(InfoOf(x), x, 11, []) == Some(15);
  }

  /** A frame of three bytes with all that a frame can have: its size, a dictionary ID, linked blocks, and
      checksums of header, block and content. */
  const FULL_FRAME: seq<byte> :=
    [0x04, 0x22, 0x4D, 0x18] + XxVectors32.DESCRIPTOR14 + [0x34]
    + [3, 0, 0, 0x80, 97, 98, 99, 0xFF, 0x53, 0xD1, 0x32, 0, 0, 0, 0, 0xFF, 0x53, 0xD1, 0x32]

  const FULL_INFO := Info(true, true, true, 3, 0x40_0000, 0x0A0B_0C0D)

  lemma FullFrame(codec: Codec)
    ensures Frame(codec, FULL_FRAME) == Some(([97, 98, 99], 38))
    ensures HasHeader(FULL_FRAME) && InfoOf(FULL_FRAME) == FULL_INFO
  {
    FullHeader();
    FullBody();
    FullItems(FULL_FRAME);
    OneBlockFrame(codec, FULL_INFO, FULL_FRAME, 19, [97, 98, 99], 30, 38);
    hide XxHash32.Hash32, HasHeader, InfoOf, Blocks, BlockAt, SuffixAt, ReadLE32;
  }

  lemma FullHeader()
    ensures !IsSkippable(FULL_FRAME) && HeaderSize(FULL_FRAME[4]) == 19
    ensures HasHeader(FULL_FRAME) && InfoOf(FULL_FRAME) == FULL_INFO
  {
    var x := FULL_FRAME;
    hide XxHash32.Hash32;
    assert HeaderSize(x[4]) == 19;
    assert x[4..18] == XxVectors32.DESCRIPTOR14;
    XxVectors32.Descriptor14();
  }

  lemma FullBody()
    ensures var x := FULL_FRAME; |x| == 38 && x[23..26] == [97, 98, 99]
    ensures ReadLE32(FULL_FRAME, 19) == 0x8000_0003 && ReadLE32(FULL_FRAME, 30) == 0
    ensures ReadLE32(FULL_FRAME, 26) == ReadLE32(FULL_FRAME, 34) == 0x32D1_53FF
  {
  }

  lemma ChecksumOfThree()
    ensures Checksum([97, 98, 99]) == 0x32D1_53FF
  {
    hide XxHash32.Hash32;
    XxVectors32.Three();
  }

  lemma FullItems(x: seq<byte>)
    requires |x| == 38 && x[23..26] == [97, 98, 99]
    requires ReadLE32(x, 19) == 0x8000_0003 && ReadLE32(x, 30) == 0
    requires ReadLE32(x, 26) == ReadLE32(x, 34) == 0x32D1_53FF
    ensures BlockAt(FULL_INFO, x, 19) == Block(false, [97, 98, 99], 30) && BlockAt(FULL_INFO, x, 30) == EndMark
    ensures SuffixAt(FULL_INFO, x, 34, [97, 98, 99]) == Some(38)
  {
    ChecksumOfThree();
    hide Checksum, ReadLE32;
  }

  lemma OneBlockFrame(codec: Codec, info: Info, x: seq<byte>, p: nat, data: seq<byte>, next: nat, end: nat)
    requires BlockAt(info, x, p) == Block(false, data, next) && BlockAt(info, x, next) == EndMark
    requires SuffixAt(info, x, next + BLOCK_HEADER_SIZE, data) == Some(end)
    ensures Blocks(codec, info, x, p, []) == Some((data, end))
  {
    hide BlockAt, SuffixAt;
    assert [] + data == data;
  }

  /** A skippable frame of two bytes, by each of its sixteen magic numbers. */
  lemma SkippableFrame(codec: Codec, k: nat, a: byte, b: byte)
    requires k < 16
    ensures Frame(codec, [0x50 + k, 0x2A, 0x4D, 0x18, 2, 0, 0, 0, a, b]) == Some(([], 10))
  {
    var x: seq<byte> := [0x50 + k, 0x2A, 0x4D, 0x18, 2, 0, 0, 0, a, b];
    assert ReadLE32(x, 0) == SKIPPABLE_START + k && ReadLE32(x, 4) == 2;
    hide HasHeader, Blocks;
  }
}
