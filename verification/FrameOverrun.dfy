/** No block compressor makes every block smaller: there are more blocks than shorter outputs. So for
    every compressor there are inputs whose blocks are all stored as they are, and among them ones for
    which LZ4F_compressUpdate writes more than its bound. */
module FrameOverrun {
  import opened Lz4Block
  import opened FrameFormat
  import opened FrameEncoding
  import opened FrameCompressor

  function Power(n: nat): (r: nat)
    ensures r >= 1
  {
    if n == 0 then 1 else 256 * Power(n - 1)
  }

  // --------------------------------------------- strings and their numbers

  /** The n bytes of a number, least significant last. */
  function Bytes256(i: nat, n: nat): (s: seq<byte>)
    ensures |s| == n
  {
    if n == 0 then [] else Bytes256(i / 256, n - 1) + [(i % 256) as byte]
  }

  lemma {:induction false} DifferentBytes(i: nat, j: nat, n: nat)
    requires i < Power(n) && j < Power(n) && Bytes256(i, n) == Bytes256(j, n)
    ensures i == j
  {
    if n > 0 {
      var a, b := Bytes256(i, n), Bytes256(j, n);
      assert a[..n - 1] == Bytes256(i / 256, n - 1) && b[..n - 1] == Bytes256(j / 256, n - 1);
      assert a[n - 1] == i % 256 && b[n - 1] == j % 256;
      DifferentBytes(i / 256, j / 256, n - 1);
    }
  }

  /** The place of a string among all strings, shorter ones first. */
  function Place(s: seq<byte>): nat {
    if s == [] then 0 else 1 + 256 * Place(s[..|s| - 1]) + s[|s| - 1]
  }

  lemma {:induction false} DifferentPlace(s: seq<byte>, t: seq<byte>)
    requires Place(s) == Place(t)
    ensures s == t
    decreases |s|
  {
    if s != [] && t != [] {
      var a, b := s[..|s| - 1], t[..|t| - 1];
      assert 256 * (Place(a) - Place(b)) == t[|t| - 1] - s[|s| - 1];
      DifferentPlace(a, b);
      assert s == a + [s[|s| - 1]] && t == b + [t[|t| - 1]];
    }
  }

  lemma {:induction false} PlaceBelow(s: seq<byte>)
    ensures 255 * Place(s) + 256 <= 256 * Power(|s|)
  {
    if s != [] { PlaceBelow(s[..|s| - 1]); }
  }

  lemma {:induction false} PowerGrows(m: nat, n: nat)
    requires m <= n
    ensures Power(m) <= Power(n)
  {
    if m < n { PowerGrows(m, n - 1); }
  }

  // ------------------------------------------------------------- counting

  /** g has different values below n, all of them less than m. */
  ghost predicate Into(g: nat -> nat, n: nat, m: nat) {
    (forall i: nat | i < n :: g(i) < m) && forall i: nat, j: nat | i < j < n :: g(i) != g(j)
  }

  /** The last value takes the place of the largest possible one. */
  lemma OneLess(g: nat -> nat, n: nat, m: nat) returns (g': nat -> nat)
    requires Into(g, n, m) && n > 0
    ensures m > 0 && Into(g', n - 1, m - 1)
  {
    var last := g(n - 1);
    assert last < m;
    g' := (i: nat) => if g(i) == m - 1 then last else g(i);
    forall i: nat | i < n - 1 ensures g(i) < m && g(i) != last {
    }
  }

  lemma {:induction false} NoMore(g: nat -> nat, n: nat, m: nat)
    requires Into(g, n, m)
    ensures n <= m
  {
    if n > 0 {
      var g' := OneLess(g, n, m);
      hide Into;
      NoMore(g', n - 1, m - 1);
    }
  }

  // ---------------------------------------------------- blocks and inputs

  /** The block is stored as it is, when there is no dictionary. */
  predicate Stored(compress: BlockCompressor, k: nat, block: seq<byte>) {
    var out := compress(k, block, []);
    out == [] || |out| >= |block|
  }

  /** For every compressor and every call of it there is a block of each size that it cannot make smaller. */
  lemma SomeBlock(codec: Codec, compress: BlockCompressor, k: nat, n: nat) returns (block: seq<byte>)
    requires Sound(codec, compress) && n > 0
    ensures |block| == n && Stored(compress, k, block)
  {
    if i: nat :| i < Power(n) && Stored(compress, k, Bytes256(i, n)) {
      return Bytes256(i, n);
    }
    var g := (i: nat) => Place(compress(k, Bytes256(i, n), []));
    forall i: nat | i < Power(n) ensures g(i) < Power(n) - 1 {
      var out := compress(k, Bytes256(i, n), []);
      PlaceBelow(out);
      PowerGrows(|out|, n - 1);
    }
    forall i: nat, j: nat | i < j < Power(n) ensures g(i) != g(j) {
      var a, b := Bytes256(i, n), Bytes256(j, n);
      if g(i) == g(j) {
        DifferentPlace(compress(k, a, []), compress(k, b, []));
        Restores(codec, compress, k, a);
        Restores(codec, compress, k, b);
        DifferentBytes(i, j, n);
      }
    }
    NoMore(g, Power(n), Power(n) - 1);
    block := [];
  }

  lemma Restores(codec: Codec, compress: BlockCompressor, k: nat, block: seq<byte>)
    requires Sound(codec, compress) && compress(k, block, []) != []
    ensures codec(compress(k, block, []), []) == Some(block)
  {
    assert EndsWith([], []) && Last([], WINDOW) == [];
  }

  /** So with independent blocks there are inputs of every size of which no block gets smaller. */
  lemma {:induction false} SomeInput(codec: Codec, compress: BlockCompressor, p: Preferences, k: nat, h: seq<byte>, size: nat) returns (data: seq<byte>)
    requires Sound(codec, compress) && ValidPreferences(p) && !p.linked
    ensures |data| == size && NoneShrinks(compress, p, k, h, data)
    decreases size
  {
    hide Sound;
    if size == 0 { return []; }
    var n := BlockSizeOf(p);
    if size < n {
      data := SomeBlock(codec, compress, k, size);
    } else {
      var block := SomeBlock(codec, compress, k, n);
      var rest := SomeInput(codec, compress, p, k + 1, h + block, size - n);
      data := block + rest;
      assert data[..n] == block && data[n..] == rest;
    }
  }

  /** For every compressor there is an input of 2^48 bytes, to be sent as independent blocks of 64 KB, of
      which no block gets smaller: its output has 2^48 + 2^34 bytes, and the bound is 4. */
  lemma SomeOverrun(codec: Codec, compress: BlockCompressor, p: Preferences, k: nat, h: seq<byte>) returns (data: seq<byte>)
    requires Sound(codec, compress) && p == Preferences(false, false, false, 0, 4, 0, false)
    ensures NoneShrinks(compress, p, k, h, data)
    ensures UpdateSize(|data|, p, 0) > CompressBound(|data|, p, 0) && !Countable(|data|, p, 0)
  {
    data := SomeInput(codec, compress, p, k, h, 0x1_0000_0000_0000);
    BoundFails(p);
    BoundHolds(|data|, p, 0);
  }
}
