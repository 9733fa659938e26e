/** The compressed-file container of fs.c: two ten-digit decimal sizes, each closed by a newline,
    in front of one LZ4 block. */
module FileCodec {
  import opened Lz4Block
  import Lz4Compress
  import Lz4Decompress

  const HEADER_SIZE := 22
  const NEWLINE: byte := 10

  const INT_RANGE := 0x1_0000_0000
  const SIZE_RANGE := 0x1_0000_0000_0000_0000

  /** (int)n for a size_t n. */
  function Narrow(n: nat): (i: int)
    ensures -0x8000_0000 <= i < 0x8000_0000
    ensures 0 <= i ==> i <= n
    ensures n < 0x8000_0000 ==> i == n
    ensures n >= 0x8000_0000 ==> i != n
  {
    var low := n % INT_RANGE;
    if low < 0x8000_0000 then low else low - INT_RANGE
  }

  /** The buffer's size is one that an int has. */
  predicate Sized(size: int, nullTerminate: bool) {
    0 <= size && size + (if nullTerminate then 1 else 0) < 0x8000_0000
  }

  /** Division and remainder of C, which round towards zero. */
  function Tenth(n: int): int { if n >= 0 then n / 10 else -(-n / 10) }

  function LastDigit(n: int): (d: int)
    ensures -9 <= d <= 9 && n == 10 * Tenth(n) + d
  {
    if n >= 0 then n % 10 else -(-n % 10)
  }

  /** The last k decimal digits of n, as characters; those of a negative number are below '0'. */
  function DigitsOf(n: int, k: nat): (s: seq<byte>)
    ensures |s| == k
    decreases k
  {
    if k == 0 then [] else DigitsOf(Tenth(n), k - 1) + [48 + LastDigit(n)]
  }

  function DigitsValue(s: seq<byte>): int {
    if s == [] then 0 else DigitsValue(s[..|s| - 1]) * 10 + (s[|s| - 1] as int - 48)
  }

  function PowerOfTen(k: nat): (r: nat)
    ensures r >= 1
  {
    if k == 0 then 1 else 10 * PowerOfTen(k - 1)
  }

  /** Writing a number in k digits and reading it back. */
  lemma {:induction false} DigitsRoundTrip(n: int, k: nat)
    requires -n < PowerOfTen(k) && n < PowerOfTen(k)
    ensures DigitsValue(DigitsOf(n, k)) == n
    decreases k
  {
    if k > 0 {
      DigitsRoundTrip(Tenth(n), k - 1);
      var s := DigitsOf(n, k);
      assert s[..k - 1] == DigitsOf(Tenth(n), k - 1);
    }
  }

  /** The bytes of a container. */
  ghost function Container(block: seq<byte>, decompressedSize: int): seq<byte> {
    DigitsOf(|block|, 10) + [NEWLINE] + DigitsOf(decompressedSize, 10) + [NEWLINE] + block
  }

  lemma DivideTwice(n: nat, p: nat)
    requires p > 0
    ensures n / 10 / p == n / (10 * p)
  {
    var q, r := n / 10 / p, n / 10 % p;
    assert n / 10 == q * p + r && n == 10 * (q * p + r) + n % 10;
    var t := 10 * r + n % 10;
    assert n == q * (10 * p) + t && 0 <= t < 10 * p;
    Quotient(n, 10 * p, q, t);
  }

  lemma Quotient(n: nat, d: nat, q: nat, r: nat)
    requires d > 0 && n == q * d + r && r < d
    ensures n / d == q
  {
    var x := n / d;
    assert n == x * d + n % d;
    assert x < q ==> (x + 1) * d <= q * d;
    assert x > q ==> (q + 1) * d <= x * d;
  }

  /** The most significant digit comes first. */
  lemma {:induction false} DigitAt(n: nat, k: nat, j: nat)
    requires j < k
    ensures DigitsOf(n, k)[j] as int == 48 + n / PowerOfTen(k - 1 - j) % 10
    decreases k
  {
    if j < k - 1 {
      DigitAt(n / 10, k - 1, j);
      DivideTwice(n, PowerOfTen(k - 2 - j));
    }
  }

  /** The header byte for byte: the size of the block, the size of the file. */
  lemma HeaderBytes(block: seq<byte>, decompressedSize: nat, j: nat)
    requires j < 10
    ensures var s := Container(block, decompressedSize);
      && |s| == HEADER_SIZE + |block| && s[HEADER_SIZE..] == block && s[10] == NEWLINE && s[21] == NEWLINE
      && s[j] as int == 48 + |block| / PowerOfTen(9 - j) % 10 && s[11 + j] as int == 48 + decompressedSize / PowerOfTen(9 - j) % 10
  {
    DigitAt(|block|, 10, j);
    DigitAt(decompressedSize, 10, j);
    hide DigitsOf, PowerOfTen;
    Parts(DigitsOf(|block|, 10), DigitsOf(decompressedSize, 10), block, j);
  }

  lemma Parts(a: seq<byte>, b: seq<byte>, block: seq<byte>, j: nat)
    requires |a| == 10 && |b| == 10 && j < 10
    ensures var s := a + [NEWLINE] + b + [NEWLINE] + block;
      && |s| == HEADER_SIZE + |block| && s[HEADER_SIZE..] == block && s[10] == NEWLINE && s[21] == NEWLINE && s[j] == a[j] && s[11 + j] == b[j]
  {
  }

  /** fs_work_t, as far as the two conversions use it. */
  class Work {
    var buffer: array<byte>
    var size: nat
    const nullTerminate: bool

    constructor (buffer: array<byte>, size: nat, nullTerminate: bool)
      requires size <= buffer.Length
      ensures this.buffer == buffer && this.size == size && this.nullTerminate == nullTerminate
    {
      this.buffer, this.size, this.nullTerminate := buffer, size, nullTerminate;
    }

    /** file_compress. The size is narrowed to an int; LZ4 refuses what is then negative or too large. */
    method FileCompress(hash: seq<byte> -> nat)
      requires size <= buffer.Length && size < SIZE_RANGE
      modifies this
      ensures fresh(buffer) && HEADER_SIZE <= size <= buffer.Length && size - HEADER_SIZE < 0x8000_0000
      ensures Container(buffer[HEADER_SIZE..size], Narrow(old(size))) == buffer[..size]
      ensures var n := Narrow(old(size));
        if 0 <= n <= MAX_INPUT_SIZE then Lz4Compress.IsCompressed(buffer[HEADER_SIZE..size], old(buffer[..n])) else size == HEADER_SIZE
    {
      hide Container, Lz4Compress.IsCompressed;
      var n := Narrow(size);
      var maxSize := if n < 0 then 0 else Lz4Compress.CompressBound(n);
      var out := new byte[maxSize + HEADER_SIZE];
      var compressedSize := 0;
      if n >= 0 {
        compressedSize := Lz4Compress.CompressFast(buffer[..n], out, HEADER_SIZE, maxSize, 1, hash);
      }
      ghost var block := out[HEADER_SIZE..HEADER_SIZE + compressedSize];
      WriteHeader(out, compressedSize, n, block);
      ghost var s := out[..HEADER_SIZE + compressedSize];
      ContainerBlock(s, block, n);
      assert s[HEADER_SIZE..HEADER_SIZE + compressedSize] == out[HEADER_SIZE..HEADER_SIZE + compressedSize];
      size := HEADER_SIZE + compressedSize;
      buffer := out;
    }

    /** file_decompress on a container: the new buffer holds what the block means, and a zero
        behind it when asked for. The decoder's result is not looked at: without a block the buffer
        is left as the heap gave it. `memory` is what new memory holds. A size that is negative, or
        becomes so with the zero, asks the heap for almost 2^64 bytes: there the model stops. */
    method FileDecompress(memory: nat -> byte, ghost block: seq<byte>, ghost decompressedSize: int) returns (ok: bool)
      requires HEADER_SIZE <= size <= buffer.Length
      requires |block| < 0x8000_0000 && -0x8000_0000 <= decompressedSize < 0x8000_0000
      requires buffer[..size] == Container(block, decompressedSize)
      modifies this
      ensures ok == Sized(decompressedSize, nullTerminate)
      ensures ok ==> fresh(buffer) && size == decompressedSize && buffer.Length == if nullTerminate then size + 1 else size
      ensures ok && nullTerminate ==> buffer[size] == 0
      ensures ok && WellFormedFrom(block, 0, 0, size) && (size > 0 || block == [0]) ==> DecodeFrom(block, 0, []) == Some(buffer[..size])
      ensures ok && block == [] ==> AlreadyThere(buffer[..size], memory)
    {
      var compressedSize, expected := ReadHeader(buffer[..size], block, decompressedSize);
      ContainerBlock(buffer[..size], block, decompressedSize);
      ok := Sized(expected, nullTerminate);
      if !ok { return; }
      var out := DecodeBlock(buffer[..size][HEADER_SIZE..HEADER_SIZE + compressedSize], expected, nullTerminate, memory);
      buffer := out;
      size := expected;
    }
  }

  /** A new buffer with the block's meaning, and a zero behind it. */
  method DecodeBlock(src: seq<byte>, expected: nat, nullTerminate: bool, memory: nat -> byte) returns (out: array<byte>)
    ensures fresh(out) && out.Length == (if nullTerminate then expected + 1 else expected) && (nullTerminate ==> out[expected] == 0)
    ensures WellFormedFrom(src, 0, 0, expected) && (expected > 0 || src == [0]) ==> DecodeFrom(src, 0, []) == Some(out[..expected])
    ensures src == [] ==> AlreadyThere(out[..expected], memory)
  {
    hide WellFormedFrom, DecodeFrom;
    out := new byte[if nullTerminate then expected + 1 else expected](i requires i >= 0 => memory(i));
    var result := Lz4Decompress.DecompressGeneric(src, out, [], 0, 0, expected);
    ghost var decoded := out[..expected];
    assert Lz4Decompress.History([], out[..], 0, expected) == decoded;
    if nullTerminate {
      out[expected] := 0;
    }
    assert out[..expected] == decoded;
  }

  /** The digit loop of file_decompress: both sizes at once, most significant digit first. */
  method ReadHeader(s: seq<byte>, ghost block: seq<byte>, ghost decompressedSize: int) returns (c: nat, d: int)
    requires s == Container(block, decompressedSize)
    requires |block| < 0x8000_0000 && -0x8000_0000 <= decompressedSize < 0x8000_0000
    ensures c == |block| && d == decompressedSize
  {
    ContainerDigits(s, block, decompressedSize);
    ContainerBlock(s, block, decompressedSize);
    hide Container, DigitsOf, DigitsValue;
    DigitsNone(s, 0);
    DigitsNone(s, 11);
    var cs, ds := 0, 0;
    for i := 0 to 10
      invariant cs == ValueAt(s, 0, i) && ds == ValueAt(s, 11, i)
    {
      DigitsMore(s, 0, i);
      DigitsMore(s, 11, i);
      cs := cs * 10 + (s[i] as int - 48);
      ds := ds * 10 + (s[i + 11] as int - 48);
    }
    c, d := cs, ds;
  }

  /** What the first i digits from position a on say. */
  ghost function ValueAt(s: seq<byte>, a: nat, i: nat): int
    requires a + i <= |s|
  {
    DigitsValue(s[a..a + i])
  }

  lemma DigitsNone(s: seq<byte>, a: nat)
    requires a <= |s|
    ensures ValueAt(s, a, 0) == 0
  {
  }

  lemma DigitsMore(s: seq<byte>, a: nat, i: nat)
    requires a + i < |s|
    ensures ValueAt(s, a, i + 1) == ValueAt(s, a, i) * 10 + (s[a + i] as int - 48)
  {
    assert s[a..a + i + 1][..i] == s[a..a + i];
  }

  lemma TenDigits()
    ensures PowerOfTen(10) == 10_000_000_000
  {
    assert PowerOfTen(5) == 100_000;
    assert PowerOfTen(8) == 100_000_000;
  }

  lemma ContainerDigits(s: seq<byte>, block: seq<byte>, decompressedSize: int)
    requires s == Container(block, decompressedSize)
    requires |block| < 0x8000_0000 && -0x8000_0000 <= decompressedSize < 0x8000_0000
    ensures DigitsValue(s[0..10]) == |block| && DigitsValue(s[11..21]) == decompressedSize
  {
    TenDigits();
    hide DigitsOf, PowerOfTen;
    assert s[0..10] == DigitsOf(|block|, 10);
    assert s[11..21] == DigitsOf(decompressedSize, 10);
    DigitsRoundTrip(|block|, 10);
    DigitsRoundTrip(decompressedSize, 10);
  }

  lemma ContainerBlock(s: seq<byte>, block: seq<byte>, decompressedSize: int)
    requires s == Container(block, decompressedSize)
    ensures HEADER_SIZE + |block| == |s| && s[HEADER_SIZE..HEADER_SIZE + |block|] == block
  {
    hide DigitsOf;
    var head := DigitsOf(|block|, 10) + [NEWLINE] + DigitsOf(decompressedSize, 10) + [NEWLINE];
    assert |head| == HEADER_SIZE && s == head + block;
  }

  /** The bytes are those that new memory happens to hold. */
  ghost predicate AlreadyThere(data: seq<byte>, memory: nat -> byte) {
    forall i | 0 <= i < |data| :: data[i] == memory(i)
  }

  /** What one caller writes with compression, another reads back: for a file of any size, exactly if
      LZ4 accepts it, or if what it lost is in memory anyway. A file of 2^31 bytes or more is cut to
      the size that an int has, or comes back as nothing. */
  method WriteThenRead(data: array<byte>, nullTerminate: bool, hash: seq<byte> -> nat, memory: nat -> byte) returns (ok: bool, read: Work)
    requires data.Length < SIZE_RANGE
    ensures fresh(read) && ok == Sized(Narrow(data.Length), nullTerminate)
    ensures ok ==> read.size == Narrow(data.Length) <= read.buffer.Length
    ensures ok && read.size == data.Length && read.buffer[..read.size] == data[..]
      <==> data.Length <= MAX_INPUT_SIZE || (Sized(data.Length, nullTerminate) && AlreadyThere(data[..], memory))
    ensures ok && read.size <= MAX_INPUT_SIZE ==> read.buffer[..read.size] == data[..read.size]
    ensures ok && nullTerminate ==> read.buffer.Length == read.size + 1 && read.buffer[read.size] == 0
  {
    var written := new Work(data, data.Length, false);
    written.FileCompress(hash);
    ghost var n := Narrow(data.Length);
    ghost var block := written.buffer[HEADER_SIZE..written.size];
    read := new Work(written.buffer, written.size, nullTerminate);
    ok := read.FileDecompress(memory, block, n);
    if ok && n > MAX_INPUT_SIZE {
      assert block == [];
      assert AlreadyThere(read.buffer[..read.size], memory);
      assert data.Length == n && AlreadyThere(data[..], memory) ==> read.buffer[..read.size] == data[..];
    }
    assert ok && n == data.Length ==> data[..n] == data[..];
  }

  /** The digit loop of file_compress, from the last digit to the first, and the two newlines. */
  method WriteHeader(buffer: array<byte>, compressedSize: nat, decompressedSize: int, ghost block: seq<byte>)
    requires HEADER_SIZE + |block| <= buffer.Length && |block| == compressedSize
    requires buffer[HEADER_SIZE..HEADER_SIZE + compressedSize] == block
    modifies buffer
    ensures buffer[..HEADER_SIZE + compressedSize] == Container(block, decompressedSize)
  {
    hide DigitsWritten, DigitsOf;
    var c: int, d: int := compressedSize, decompressedSize;
    var i := 9;
    ghost var was := buffer[..];
    NoDigits(was, 0, c);
    NoDigits(was, 11, d);
    while i >= 0
      invariant -1 <= i <= 9
      invariant DigitsWritten(buffer[..], 0, i + 1, c, compressedSize)
      invariant DigitsWritten(buffer[..], 11, i + 1, d, decompressedSize)
      invariant buffer[HEADER_SIZE..] == was[HEADER_SIZE..]
    {
      c := WriteDigit(buffer, 0, i, c, compressedSize, 11, i + 1, d, decompressedSize);
      d := WriteDigit(buffer, 11, i, d, decompressedSize, 0, i, c, compressedSize);
      i := i - 1;
    }
    AllDigits(buffer[..], 0, c, compressedSize);
    AllDigits(buffer[..], 11, d, decompressedSize);
    ghost var digits := buffer[..];
    buffer[10] := NEWLINE;
    buffer[21] := NEWLINE;
    assert buffer[0..10] == digits[0..10] && buffer[11..21] == digits[11..21];
    assert buffer[HEADER_SIZE..HEADER_SIZE + compressedSize] == digits[HEADER_SIZE..][..compressedSize] == was[HEADER_SIZE..][..compressedSize];
    ContainerIs(buffer[..], block, decompressedSize);
  }

  lemma ContainerIs(s: seq<byte>, block: seq<byte>, decompressedSize: int)
    requires HEADER_SIZE + |block| <= |s| && s[HEADER_SIZE..HEADER_SIZE + |block|] == block
    requires s[0..10] == DigitsOf(|block|, 10) && s[10] == NEWLINE
    requires s[11..21] == DigitsOf(decompressedSize, 10) && s[21] == NEWLINE
    ensures s[..HEADER_SIZE + |block|] == Container(block, decompressedSize)
  {
    hide DigitsOf;
    var e := HEADER_SIZE + |block|;
    assert s[..e] == s[0..10] + [s[10]] + s[11..21] + [s[21]] + s[HEADER_SIZE..e];
  }

  /** One digit of one of the two sizes; the other is not touched. */
  method WriteDigit(buffer: array<byte>, at: nat, i: nat, c: int, ghost n: int, ghost at2: nat, ghost k2: nat, ghost c2: int, ghost n2: int) returns (rest: int)
    requires HEADER_SIZE <= buffer.Length && i < 10 && k2 <= 10 && ((at == 0 && at2 == 11) || (at == 11 && at2 == 0))
    requires DigitsWritten(buffer[..], at, i + 1, c, n) && DigitsWritten(buffer[..], at2, k2, c2, n2)
    modifies buffer
    ensures rest == Tenth(c)
    ensures DigitsWritten(buffer[..], at, i, rest, n) && DigitsWritten(buffer[..], at2, k2, c2, n2)
    ensures buffer[HEADER_SIZE..] == old(buffer[HEADER_SIZE..])
  {
    hide DigitsWritten, DigitsOf;
    ghost var s := buffer[..];
    rest := Tenth(c);
    DigitStep(s, at, i, c, n);
    var digit: byte := 48 + LastDigit(c);
    OtherDigits(s, at2, k2, c2, n2, at + i, digit);
    buffer[at + i] := digit;
    assert buffer[..] == s[at + i := digit];
  }

  /** The digits of n from position k on stand in the buffer, and the rest of it is what c still yields. */
  ghost predicate DigitsWritten(s: seq<byte>, at: nat, k: nat, c: int, n: int) {
    && k <= 10 && at + 10 <= |s|
    && s[at + k..at + 10] == DigitsOf(n, 10)[k..]
    && DigitsOf(n, 10)[..k] == DigitsOf(c, k)
  }

  lemma NoDigits(s: seq<byte>, at: nat, n: int)
    requires at + 10 <= |s|
    ensures DigitsWritten(s, at, 10, n, n)
  {
    hide DigitsOf;
  }

  lemma AllDigits(s: seq<byte>, at: nat, c: int, n: int)
    requires DigitsWritten(s, at, 0, c, n)
    ensures at + 10 <= |s| && s[at..at + 10] == DigitsOf(n, 10)
  {
    hide DigitsOf;
  }

  lemma DigitStep(s: seq<byte>, at: nat, i: nat, c: int, n: int)
    requires i < 10 && DigitsWritten(s, at, i + 1, c, n)
    ensures at + i < |s| && DigitsWritten(s[at + i := (48 + LastDigit(c)) as byte], at, i, Tenth(c), n)
  {
    var d := DigitsOf(n, 10);
    var digit: byte := 48 + LastDigit(c);
    var s2 := s[at + i := digit];
    DigitsEnd(c, i);
    hide DigitsOf;
    assert d[i] == d[..i + 1][i] == 48 + LastDigit(c);
    assert d[..i] == d[..i + 1][..i];
    assert s2[at + i..at + 10] == [s2[at + i]] + s[at + (i + 1)..at + 10];
    assert d[i..] == [d[i]] + d[i + 1..];
  }

  lemma DigitsEnd(c: int, i: nat)
    ensures DigitsOf(c, i + 1)[i] == 48 + LastDigit(c)
    ensures DigitsOf(c, i + 1)[..i] == DigitsOf(Tenth(c), i)
  {
  }

  lemma OtherDigits(s: seq<byte>, at: nat, k: nat, c: int, n: int, j: nat, v: byte)
    requires DigitsWritten(s, at, k, c, n) && j < |s| && (j < at || at + 10 <= j)
    ensures DigitsWritten(s[j := v], at, k, c, n)
  {
    hide DigitsOf;
    assert s[j := v][at + k..at + 10] == s[at + k..at + 10];
  }
}
