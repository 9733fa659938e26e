/** XXH64 tells inputs apart behind its stripes, and within them as far as the merging of the lanes does:
    everything else in it can be undone. */
module XxDistinct64 {
  import opened Lz4Block
  import opened XxHash64
  import opened XxApart

  // ------------------------------------------------------------- single steps

  function Over1(x: bv64): bv64 { x * 614540362697595703 }
  function Over2(x: bv64): bv64 { x * 839798700976720815 }
  function Over3(x: bv64): bv64 { x * 16855272203555305545 }
  function Over5(x: bv64): bv64 { x * 14236653164957433613 }

  lemma Undo1(x: bv64)
    ensures Over1(Times1(x)) == x
  {
    assert Over1(x * 11400714785074694791) == x;
  }

  lemma Undo2(x: bv64)
    ensures Over2(Times2(x)) == x
  {
    assert Over2(x * 14029467366897019727) == x;
  }

  lemma Undo3(x: bv64)
    ensures Over3(Times3(x)) == x
  {
    assert Over3(x * 1609587929392839161) == x;
  }

  lemma Undo5(x: bv64)
    ensures Over5(Times5(x)) == x
  {
    assert Over5(x * 2870177450012600261) == x;
  }

  lemma UndoRotl31(x: bv64)
    ensures Rotl64(Rotl64(x, 31), 33) == x
  {
  }

  lemma UndoRotl27(x: bv64)
    ensures Rotl64(Rotl64(x, 27), 37) == x
  {
  }

  lemma UndoRotl23(x: bv64)
    ensures Rotl64(Rotl64(x, 23), 41) == x
  {
  }

  lemma UndoRotl11(x: bv64)
    ensures Rotl64(Rotl64(x, 11), 53) == x
  {
  }

  function Unshift33(y: bv64): bv64 { y ^ (y >> 33) }

  lemma UndoShift33(x: bv64)
    ensures Unshift33(Shift33(x)) == x
  {
    assert Unshift33(x ^ (x >> 33)) == x;
  }

  function Unshift29(y: bv64): bv64 { y ^ (y >> 29) ^ (y >> 58) }

  lemma UndoShift29(x: bv64)
    ensures Unshift29(Shift29(x)) == x
  {
    assert Unshift29(x ^ (x >> 29)) == x;
  }

  function Unshift32(y: bv64): bv64 { y ^ (y >> 32) }

  lemma UndoShift32(x: bv64)
    ensures Unshift32(Shift32(x)) == x
  {
    assert Unshift32(x ^ (x >> 32)) == x;
  }

  function Less(s: bv64, a: bv64): bv64 { s - a }

  lemma UndoSum(a: bv64, b: bv64)
    ensures Less(Sum(a, b), a) == b && Less(Sum(a, b), b) == a
  {
    assert Less(a + b, a) == b && Less(a + b, b) == a;
  }

  lemma UndoXor(a: bv64, b: bv64)
    ensures Xor(Xor(a, b), a) == b && Xor(Xor(a, b), b) == a
  {
    assert Xor(a ^ b, a) == b && Xor(a ^ b, b) == a;
  }

  lemma AvalancheApart(h: bv64, g: bv64)
    requires Avalanche64(h) == Avalanche64(g)
    ensures h == g
  {
    hide Times2, Times3, Over2, Over3, Shift29, Shift33, Shift32, Unshift29, Unshift33, Unshift32;
    var a, b := Times2(Shift33(h)), Times2(Shift33(g));
    UndoShift32(Times3(Shift29(a)));
    UndoShift32(Times3(Shift29(b)));
    Undo3(Shift29(a));
    Undo3(Shift29(b));
    UndoShift29(a);
    UndoShift29(b);
    Undo2(Shift33(h));
    Undo2(Shift33(g));
    UndoShift33(h);
    UndoShift33(g);
  }

  /** A round tells lanes apart by their words, and words by their lanes. */
  lemma RoundApart(a: bv64, b: bv64, v: bv64, w: bv64)
    requires Round64(a, v) == Round64(b, w)
    ensures a == b <==> v == w
  {
    hide Less, Sum, Xor, Over1, Over2, Times1, Times2, Rotl64;
    var x, y := Sum(a, Times2(v)), Sum(b, Times2(w));
    Undo1(Rotl64(x, 31));
    Undo1(Rotl64(y, 31));
    UndoRotl31(x);
    UndoRotl31(y);
    UndoSum(a, Times2(v));
    UndoSum(b, Times2(w));
    Undo2(v);
    Undo2(w);
  }

  lemma Mix8Apart(h: bv64, g: bv64, v: bv64, w: bv64)
    requires Mix8(h, v) == Mix8(g, w)
    ensures h == g <==> v == w
  {
    hide Less, Sum, Xor, Over1, Times1, Rotl64, Round64;
    var x, y := Xor(h, Round64(0, v)), Xor(g, Round64(0, w));
    UndoXor(h, Round64(0, v));
    UndoXor(g, Round64(0, w));
    UndoSum(Times1(Rotl64(x, 27)), PRIME64_4);
    UndoSum(Times1(Rotl64(y, 27)), PRIME64_4);
    Undo1(Rotl64(x, 27));
    Undo1(Rotl64(y, 27));
    UndoRotl27(x);
    UndoRotl27(y);
    if Round64(0, v) == Round64(0, w) { RoundApart(0, 0, v, w); }
  }

  lemma Mix4Apart(h: bv64, g: bv64, v: bv64, w: bv64)
    requires Mix4(h, v) == Mix4(g, w)
    ensures h == g <==> v == w
  {
    hide Less, Sum, Xor, Over1, Over2, Times1, Times2, Rotl64;
    var x, y := Xor(h, Times1(v)), Xor(g, Times1(w));
    UndoXor(h, Times1(v));
    UndoXor(g, Times1(w));
    UndoSum(Times2(Rotl64(x, 23)), PRIME64_3);
    UndoSum(Times2(Rotl64(y, 23)), PRIME64_3);
    Undo2(Rotl64(x, 23));
    Undo2(Rotl64(y, 23));
    UndoRotl23(x);
    UndoRotl23(y);
    Undo1(v);
    Undo1(w);
  }

  lemma Mix1Apart(h: bv64, g: bv64, b: byte, c: byte)
    requires Mix1(h, b) == Mix1(g, c)
    ensures h == g <==> b == c
  {
    hide Xor, Over1, Over5, Times1, Times5, Rotl64, Widen;
    var v, w := Widen(b), Widen(c);
    var x, y := Xor(h, Times5(v)), Xor(g, Times5(w));
    UndoXor(h, Times5(v));
    UndoXor(g, Times5(w));
    Undo1(Rotl64(x, 11));
    Undo1(Rotl64(y, 11));
    UndoRotl11(x);
    UndoRotl11(y);
    Undo5(v);
    Undo5(w);
    if v == w { BytesApart(b, c); }
  }

  lemma ByteIs(a: byte)
    ensures Widen(a) == (a as bv8) as bv64 && (a as bv8) as int == a && Widen(a) & 0xFF == Widen(a)
  {
  }

  lemma BytesApart(a: byte, b: byte)
    requires Widen(a) == Widen(b)
    ensures a == b
  {
    ByteIs(a);
    ByteIs(b);
  }

  function Low8(w: bv64): bv64 { w & 0xFF }
  function Second8(w: bv64): bv64 { (w >> 8) & 0xFF }
  function Third8(w: bv64): bv64 { (w >> 16) & 0xFF }
  function High8(w: bv64): bv64 { (w >> 24) & 0xFF }

  lemma UndoJoin(a: bv64, b: bv64, c: bv64, d: bv64)
    requires a & 0xFF == a && b & 0xFF == b && c & 0xFF == c && d & 0xFF == d
    ensures var w := Join32(a, b, c, d); Low8(w) == a && Second8(w) == b && Third8(w) == c && High8(w) == d
  {
  }

  lemma WordsApart(a: byte, b: byte, c: byte, d: byte, a2: byte, b2: byte, c2: byte, d2: byte)
    requires LittleEndian32(a, b, c, d) == LittleEndian32(a2, b2, c2, d2)
    ensures a == a2 && b == b2 && c == c2 && d == d2
  {
    UndoWord(a, b, c, d);
    UndoWord(a2, b2, c2, d2);
    hide *;
    BytesApart(a, a2);
    BytesApart(b, b2);
    BytesApart(c, c2);
    BytesApart(d, d2);
  }

  lemma UndoWord(a: byte, b: byte, c: byte, d: byte)
    ensures var w := LittleEndian32(a, b, c, d);
      Low8(w) == Widen(a) && Second8(w) == Widen(b) && Third8(w) == Widen(c) && High8(w) == Widen(d)
  {
    ByteIs(a);
    ByteIs(b);
    ByteIs(c);
    ByteIs(d);
    hide Low8, Second8, Third8, High8, Join32, Widen;
    UndoJoin(Widen(a), Widen(b), Widen(c), Widen(d));
  }

  lemma ReadApart(s: seq<byte>, t: seq<byte>, p: nat)
    requires p + 4 <= |s| && p + 4 <= |t| && ReadLE32(s, p) == ReadLE32(t, p)
    ensures forall k | p <= k < p + 4 :: s[k] == t[k]
  {
    hide LittleEndian32;
    WordsApart(s[p], s[p + 1], s[p + 2], s[p + 3], t[p], t[p + 1], t[p + 2], t[p + 3]);
  }

  function LowHalf(w: bv64): bv64 { w & 0xFFFF_FFFF }
  function HighHalf(w: bv64): bv64 { w >> 32 }

  lemma UndoJoin64(a: bv64, b: bv64)
    requires a & 0xFFFF_FFFF == a && b & 0xFFFF_FFFF == b
    ensures LowHalf(Join64(a, b)) == a && HighHalf(Join64(a, b)) == b
  {
  }

  lemma JoinedShort(a: bv64, b: bv64, c: bv64, d: bv64)
    requires a & 0xFF == a && b & 0xFF == b && c & 0xFF == c && d & 0xFF == d
    ensures Join32(a, b, c, d) & 0xFFFF_FFFF == Join32(a, b, c, d)
  {
  }

  lemma UndoRead64(s: seq<byte>, p: nat)
    requires p + 8 <= |s|
    ensures LowHalf(ReadLE64(s, p)) == ReadLE32(s, p) && HighHalf(ReadLE64(s, p)) == ReadLE32(s, p + 4)
  {
    hide LowHalf, HighHalf, Join64, LittleEndian32;
    ReadShort(s, p);
    ReadShort(s, p + 4);
    UndoJoin64(ReadLE32(s, p), ReadLE32(s, p + 4));
  }

  lemma ReadShort(s: seq<byte>, p: nat)
    requires p + 4 <= |s|
    ensures ReadLE32(s, p) & 0xFFFF_FFFF == ReadLE32(s, p)
  {
    var a, b, c, d := s[p], s[p + 1], s[p + 2], s[p + 3];
    ByteIs(a);
    ByteIs(b);
    ByteIs(c);
    ByteIs(d);
    hide Widen, Join32;
    JoinedShort(Widen(a), Widen(b), Widen(c), Widen(d));
  }

  lemma Read64Apart(s: seq<byte>, t: seq<byte>, p: nat)
    requires p + 8 <= |s| && p + 8 <= |t| && ReadLE64(s, p) == ReadLE64(t, p)
    ensures forall k | p <= k < p + 8 :: s[k] == t[k]
  {
    hide ReadLE64, ReadLE32, LowHalf, HighHalf;
    UndoRead64(s, p);
    UndoRead64(t, p);
    ReadApart(s, t, p);
    ReadApart(s, t, p + 4);
  }

  // -------------------------------------------------------------- whole inputs

  lemma SameRead(s: seq<byte>, t: seq<byte>, p: nat)
    requires p + 4 <= |s| && p + 4 <= |t| && forall k | p <= k < p + 4 :: s[k] == t[k]
    ensures ReadLE32(s, p) == ReadLE32(t, p)
  {
    hide LittleEndian32;
  }

  lemma SameRead64(s: seq<byte>, t: seq<byte>, p: nat)
    requires p + 8 <= |s| && p + 8 <= |t| && forall k | p <= k < p + 8 :: s[k] == t[k]
    ensures ReadLE64(s, p) == ReadLE64(t, p)
  {
    hide LittleEndian32, Join64;
  }

  lemma ApartReads(s: seq<byte>, t: seq<byte>, p: nat, q: nat)
    requires Apart(s, t, p, 8) && q + 8 <= |s| && (p == q || q + 8 <= p || p + 8 <= q)
    ensures ReadLE64(s, q) == ReadLE64(t, q) <==> p != q
  {
    if p != q {
      SameRead64(s, t, q);
    } else if ReadLE64(s, p) == ReadLE64(t, p) {
      Read64Apart(s, t, p);
      assert false;
    }
    hide ReadLE64;
  }

  lemma HalvesApart(s: seq<byte>, t: seq<byte>, p: nat)
    requires Apart(s, t, p, 4)
    ensures ReadLE32(s, p) != ReadLE32(t, p)
  {
    if ReadLE32(s, p) == ReadLE32(t, p) {
      ReadApart(s, t, p);
      assert false;
    }
  }

  lemma BytesDiffer(s: seq<byte>, t: seq<byte>, p: nat)
    requires Apart(s, t, p, 1)
    ensures s[p] != t[p]
  {
  }

  // --------------------------------------------------------------------- tails

  lemma {:induction false} TailSame(h: bv64, s: seq<byte>, t: seq<byte>, p: nat)
    requires |s| == |t| && p <= |s| && forall k | p <= k < |s| :: s[k] == t[k]
    ensures Tail64(h, s, p) == Tail64(h, t, p)
    decreases |s| - p
  {
    hide Mix8, Mix4, Mix1, ReadLE64, ReadLE32;
    if p + 8 <= |s| {
      SameRead64(s, t, p);
      TailSame(Mix8(h, ReadLE64(s, p)), s, t, p + 8);
    } else if p + 4 <= |s| {
      SameRead(s, t, p);
      TailSame(Mix4(h, ReadLE32(s, p)), s, t, p + 4);
    } else if p < |s| {
      TailSame(Mix1(h, s[p]), s, t, p + 1);
    }
  }

  lemma {:induction false} TailKeepsApart(h: bv64, g: bv64, s: seq<byte>, p: nat)
    requires p <= |s| && Tail64(h, s, p) == Tail64(g, s, p)
    ensures h == g
    decreases |s| - p
  {
    hide Mix8, Mix4, Mix1, ReadLE64, ReadLE32;
    if p + 8 <= |s| {
      var w := ReadLE64(s, p);
      TailKeepsApart(Mix8(h, w), Mix8(g, w), s, p + 8);
      Mix8Apart(h, g, w, w);
    } else if p + 4 <= |s| {
      var w := ReadLE32(s, p);
      TailKeepsApart(Mix4(h, w), Mix4(g, w), s, p + 4);
      Mix4Apart(h, g, w, w);
    } else if p < |s| {
      TailKeepsApart(Mix1(h, s[p]), Mix1(g, s[p]), s, p + 1);
      Mix1Apart(h, g, s[p], s[p]);
    }
  }

  /** The two tails from p on are the same, and start with different states. */
  lemma TailsDiffer(h: bv64, g: bv64, s: seq<byte>, t: seq<byte>, p: nat)
    requires |s| == |t| && p <= |s| && h != g && forall k | p <= k < |s| :: s[k] == t[k]
    ensures Tail64(h, s, p) != Tail64(g, t, p)
  {
    hide Tail64;
    TailSame(g, s, t, p);
    if Tail64(h, s, p) == Tail64(g, t, p) { TailKeepsApart(h, g, s, p); }
  }

  /** Words of eight bytes that the hash reads at once, then at most one of four, then single bytes. */
  predicate Unit(length: nat, p: nat, n: nat) {
    || (n == 8 && p % 8 == 0)
    || (n == 4 && p == length - length % 8)
    || (n == 1 && p >= length - length % 4)
  }

  lemma {:induction false} BytesTail(h: bv64, s: seq<byte>, t: seq<byte>, p: nat, q: nat)
    requires Apart(s, t, q, 1) && p <= q && |s| < p + 4
    ensures Tail64(h, s, p) != Tail64(h, t, p)
    decreases |s| - p
  {
    hide Mix1;
    if p == q {
      BytesDiffer(s, t, p);
      if Mix1(h, s[p]) == Mix1(h, t[p]) { Mix1Apart(h, h, s[p], t[p]); }
      TailsDiffer(Mix1(h, s[p]), Mix1(h, t[p]), s, t, p + 1);
    } else {
      BytesTail(Mix1(h, s[p]), s, t, p + 1, q);
    }
  }

  lemma HalfTail(h: bv64, s: seq<byte>, t: seq<byte>, p: nat, q: nat, n: nat)
    requires Apart(s, t, q, n) && p + 4 <= |s| < p + 8 && ((n == 4 && q == p) || (n == 1 && q >= p + 4))
    ensures Tail64(h, s, p) != Tail64(h, t, p)
  {
    hide Mix8, Mix4, Mix1, ReadLE64, ReadLE32;
    var v, w := ReadLE32(s, p), ReadLE32(t, p);
    if n == 4 {
      HalvesApart(s, t, p);
      if Mix4(h, v) == Mix4(h, w) { Mix4Apart(h, h, v, w); }
      TailsDiffer(Mix4(h, v), Mix4(h, w), s, t, p + 4);
    } else {
      SameRead(s, t, p);
      BytesTail(Mix4(h, v), s, t, p + 4, q);
    }
  }

  lemma WordBefore(s: seq<byte>, t: seq<byte>, p: nat, q: nat, n: nat)
    requires Apart(s, t, q, n) && p + 8 <= q
    ensures |s| == |t| && q + n <= |s| && ReadLE64(s, p) == ReadLE64(t, p)
  {
    SameRead64(s, t, p);
  }

  lemma FirstWord(h: bv64, s: seq<byte>, t: seq<byte>, p: nat)
    requires Apart(s, t, p, 8)
    ensures Tail64(h, s, p) != Tail64(h, t, p)
  {
    hide Mix8, Mix4, Mix1, ReadLE64, ReadLE32;
    var v, w := ReadLE64(s, p), ReadLE64(t, p);
    ApartReads(s, t, p, p);
    if Mix8(h, v) == Mix8(h, w) { Mix8Apart(h, h, v, w); }
    TailsDiffer(Mix8(h, v), Mix8(h, w), s, t, p + 8);
  }

  lemma TailStep(h: bv64, s: seq<byte>, p: nat)
    requires p + 8 <= |s|
    ensures Tail64(h, s, p) == Tail64(Mix8(h, ReadLE64(s, p)), s, p + 8)
  {
    hide Mix8, ReadLE64;
  }

  lemma {:induction false} WordsTail(h: bv64, s: seq<byte>, t: seq<byte>, p: nat, q: nat, n: nat, i: nat)
    requires Apart(s, t, q, n) && Unit(|s|, q, n) && p <= q && p == 8 * i && q < |s| == |t|
    ensures Tail64(h, s, p) != Tail64(h, t, p)
    decreases |s| - p
  {
    hide *;
    ApartBounds(s, t, q, n);
    if p + 8 > |s| {
      LastUnit(|s|, p, q, n, i);
      if p + 4 <= |s| {
        HalfTail(h, s, t, p, q, n);
      } else {
        BytesTail(h, s, t, p, q);
      }
    } else {
      NextWord(|s|, p, q, n, i);
      if p == q {
        FirstWord(h, s, t, p);
      } else {
        WordBefore(s, t, p, q, n);
        TailStep(h, s, p);
        TailStep(h, t, p);
        WordsTail(Mix8(h, ReadLE64(s, p)), s, t, p + 8, q, n, i + 1);
      }
    }
  }

  lemma NextWord(length: nat, p: nat, q: nat, n: nat, i: nat)
    requires Unit(length, q, n) && q + n <= length && p <= q && p == 8 * i && p + 8 <= length
    ensures p == q ==> n == 8
    ensures p < q ==> p + 8 <= q
  {
  }

  lemma LastUnit(length: nat, p: nat, q: nat, n: nat, i: nat)
    requires Unit(length, q, n) && q + n <= length && p <= q && p == 8 * i && length < p + 8
    ensures length >= p + 4 ==> (n == 4 && q == p) || (n == 1 && q >= p + 4)
    ensures length < p + 4 ==> n == 1
  {
    Left8(length, p, i);
    Left4(length, if length >= p + 4 then p + 4 else p, if length >= p + 4 then 2 * i + 1 else 2 * i);
  }

  lemma Left8(length: nat, p: nat, i: nat)
    requires p == 8 * i <= length < p + 8
    ensures length % 8 == length - p
  {
  }

  lemma Left4(length: nat, p: nat, i: nat)
    requires p == 4 * i <= length < p + 4
    ensures length % 4 == length - p
  {
  }

  // -------------------------------------------------------------------- lanes

  function Lane(v: Lanes64, j: nat): bv64
    requires j < 4
  {
    if j == 0 then v.v1 else if j == 1 then v.v2 else if j == 2 then v.v3 else v.v4
  }

  /** v and u are the same but for lane j. */
  ghost predicate LaneApart(v: Lanes64, u: Lanes64, j: nat) {
    j < 4 && forall i: nat | i < 4 :: Lane(v, i) == Lane(u, i) <==> i != j
  }

  /** Word j of the stripe at e. */
  function StripeWord(s: seq<byte>, e: nat, j: nat): bv64
    requires e + 32 <= |s| && j < 4
  {
    ReadLE64(s, e + 8 * j)
  }

  lemma StripeLane(v: Lanes64, s: seq<byte>, e: nat, j: nat)
    requires e + 32 <= |s| && j < 4
    ensures Lane(Stripe64(v, s, e), j) == Round64(Lane(v, j), StripeWord(s, e, j))
  {
    hide Round64, ReadLE64;
  }

  ghost predicate SameWord(s: seq<byte>, t: seq<byte>, e: nat, j: nat) {
    j < 4 && e + 32 <= |s| == |t| && StripeWord(s, e, j) == StripeWord(t, e, j)
  }

  /** Lanes that are the same but for one stay so when the same stripe is mixed in. */
  lemma StripeAfter(v: Lanes64, u: Lanes64, s: seq<byte>, t: seq<byte>, e: nat, j0: nat)
    requires LaneApart(v, u, j0) && e + 32 <= |s| == |t| && forall j: nat | j < 4 :: SameWord(s, t, e, j)
    ensures LaneApart(Stripe64(v, s, e), Stripe64(u, t, e), j0)
  {
    hide Stripe64, Round64, StripeWord, Lane;
    forall j: nat | j < 4 ensures Lane(Stripe64(v, s, e), j) == Lane(Stripe64(u, t, e), j) <==> j != j0 {
      StripeLane(v, s, e, j);
      StripeLane(u, t, e, j);
      assert SameWord(s, t, e, j);
      if Lane(Stripe64(v, s, e), j) == Lane(Stripe64(u, t, e), j) {
        RoundApart(Lane(v, j), Lane(u, j), StripeWord(s, e, j), StripeWord(t, e, j));
      }
    }
  }

  /** They become so when a stripe is mixed in of which one word differs. */
  lemma StripeAt(v: Lanes64, s: seq<byte>, t: seq<byte>, e: nat, j0: nat)
    requires j0 < 4 && e + 32 <= |s| == |t| && forall j: nat | j < 4 :: SameWord(s, t, e, j) <==> j != j0
    ensures LaneApart(Stripe64(v, s, e), Stripe64(v, t, e), j0)
  {
    hide Stripe64, Round64, StripeWord, Lane;
    forall j: nat | j < 4 ensures Lane(Stripe64(v, s, e), j) == Lane(Stripe64(v, t, e), j) <==> j != j0 {
      StripeLane(v, s, e, j);
      StripeLane(v, t, e, j);
      assert SameWord(s, t, e, j) <==> j != j0;
      if Lane(Stripe64(v, s, e), j) == Lane(Stripe64(v, t, e), j) {
        RoundApart(Lane(v, j), Lane(v, j), StripeWord(s, e, j), StripeWord(t, e, j));
      }
    }
  }

  lemma StripeWordAt(s: seq<byte>, t: seq<byte>, p: nat, e: nat, i: nat, j: nat)
    requires Apart(s, t, p, 8) && e + 32 <= |s| && p == 8 * i && e % 8 == 0 && j < 4
    ensures SameWord(s, t, e, j) <==> p != e + 8 * j
  {
    hide ReadLE64, Apart;
    ApartBounds(s, t, p, 8);
    var q := e + 8 * j;
    ApartReads(s, t, p, q);
  }

  lemma StripeBehind(v: Lanes64, u: Lanes64, s: seq<byte>, t: seq<byte>, p: nat, e: nat, i: nat, j0: nat)
    requires Apart(s, t, p, 8) && e + 32 <= |s| == |t| && e % 8 == 0 && p == 8 * i && p < e && LaneApart(v, u, j0)
    ensures LaneApart(Stripe64(v, s, e), Stripe64(u, t, e), j0)
  {
    hide Stripe64, SameWord, LaneApart, Apart;
    forall j: nat | j < 4 ensures SameWord(s, t, e, j) {
      StripeWordAt(s, t, p, e, i, j);
    }
    StripeAfter(v, u, s, t, e, j0);
  }

  lemma StripeHit(v: Lanes64, s: seq<byte>, t: seq<byte>, p: nat, e: nat, i: nat, j0: nat)
    requires Apart(s, t, p, 8) && e + 32 <= |s| == |t| && e % 8 == 0 && p == 8 * i && p == e + 8 * j0 && j0 < 4
    ensures LaneApart(Stripe64(v, s, e), Stripe64(v, t, e), j0)
  {
    hide Stripe64, SameWord, LaneApart, Apart;
    forall j: nat | j < 4 ensures SameWord(s, t, e, j) <==> j != j0 {
      StripeWordAt(s, t, p, e, i, j);
    }
    StripeAt(v, s, t, e, j0);
  }

  lemma StripeBefore(v: Lanes64, s: seq<byte>, t: seq<byte>, p: nat, e: nat)
    requires Apart(s, t, p, 8) && e + 32 <= |s| == |t| && e + 32 <= p
    ensures Stripe64(v, s, e) == Stripe64(v, t, e)
  {
    hide Round64;
    SameRead64(s, t, e);
    SameRead64(s, t, e + 8);
    SameRead64(s, t, e + 16);
    SameRead64(s, t, e + 24);
    hide ReadLE64;
  }

  /** The lanes after n stripes. */
  function Fed(v: Lanes64, s: seq<byte>, n: nat): Lanes64
    requires 32 * n <= |s|
  {
    Stripes64(v, s[..32 * n])
  }

  lemma FedStep(v: Lanes64, s: seq<byte>, n: nat)
    requires 32 * n + 32 <= |s|
    ensures Fed(v, s, n + 1) == Stripe64(Fed(v, s, n), s, 32 * n)
  {
    hide Stripes64, Stripe64;
    StripesStep64(v, s, 32 * n);
  }

  lemma FedNone(v: Lanes64, s: seq<byte>)
    ensures Fed(v, s, 0) == v
  {
    assert s[..0] == [];
  }

  /** One word that differs leaves the lanes the same but for the one it goes to. */
  lemma {:induction false} FedApart(v: Lanes64, s: seq<byte>, t: seq<byte>, p: nat, n: nat, i: nat)
    requires Apart(s, t, p, 8) && 32 * n <= |s| == |t| && p == 8 * i
    ensures p < 32 * n ==> LaneApart(Fed(v, s, n), Fed(v, t, n), i % 4)
    ensures p >= 32 * n ==> Fed(v, s, n) == Fed(v, t, n)
    decreases n
  {
    hide *;
    if n == 0 {
      FedNone(v, s);
      FedNone(v, t);
    } else {
      var e := 32 * (n - 1);
      FedStep(v, s, n - 1);
      FedStep(v, t, n - 1);
      FedApart(v, s, t, p, n - 1, i);
      if p < e {
        StripeBehind(Fed(v, s, n - 1), Fed(v, t, n - 1), s, t, p, e, i, i % 4);
      } else if p < e + 32 {
        StripeHit(Fed(v, s, n - 1), s, t, p, e, i, i % 4);
      } else {
        StripeBefore(Fed(v, s, n - 1), s, t, p, e);
      }
    }
  }

  // ------------------------------------------------------------------ digests

  lemma LengthApart(h: bv64, g: bv64, n: nat)
    requires AddLength64(h, n) == AddLength64(g, n)
    ensures h == g
  {
    hide Sum, Less, Word64;
    var w := Word64(n % 0x1_0000_0000_0000_0000);
    UndoSum(h, w);
    UndoSum(g, w);
  }

  /** The lanes after all whole stripes. */
  function LanesOf(seed: bv64, s: seq<byte>): Lanes64 {
    Stripes64(Start64(seed), s[..Whole32(|s|)])
  }

  /** Before the tail: the lanes merged, or the seed alone. */
  function Head64(seed: bv64, s: seq<byte>): bv64 {
    if |s| >= 32 then Converge64(LanesOf(seed, s)) else Small64(seed)
  }

  lemma HashIs(seed: bv64, s: seq<byte>)
    ensures Hash64(seed, s) == Avalanche64(Tail64(AddLength64(Head64(seed, s), |s|), s[Whole32(|s|)..], 0))
  {
    hide Avalanche64, Tail64, AddLength64, Converge64, Stripes64, Start64, Small64;
  }

  lemma SameTails(seed: bv64, s: seq<byte>, t: seq<byte>, k: nat)
    requires |s| == |t| && k == Whole32(|s|) && s[k..] == t[k..]
    ensures Hash64(seed, s) == Hash64(seed, t) <==> Head64(seed, s) == Head64(seed, t)
  {
    HashIs(seed, s);
    HashIs(seed, t);
    hide *;
    if Hash64(seed, s) == Hash64(seed, t) {
      var h, g, n := Head64(seed, s), Head64(seed, t), |s|;
      var x, y := AddLength64(h, n), AddLength64(g, n);
      AvalancheApart(Tail64(x, s[k..], 0), Tail64(y, t[k..], 0));
      TailKeepsApart(x, y, s[k..], 0);
      LengthApart(h, g, n);
    }
  }

  lemma TailsApart(seed: bv64, s: seq<byte>, t: seq<byte>, k: nat, p: nat, n: nat)
    requires |s| == |t| && k == Whole32(|s|) && Head64(seed, s) == Head64(seed, t)
    requires Apart(s[k..], t[k..], p, n) && Unit(|s| - k, p, n) && p < |s| - k
    ensures Hash64(seed, s) != Hash64(seed, t)
  {
    HashIs(seed, s);
    HashIs(seed, t);
    hide *;
    var x := AddLength64(Head64(seed, s), |s|);
    WordsTail(x, s[k..], t[k..], 0, p, n, 0);
    if Avalanche64(Tail64(x, s[k..], 0)) == Avalanche64(Tail64(x, t[k..], 0)) {
      AvalancheApart(Tail64(x, s[k..], 0), Tail64(x, t[k..], 0));
    }
  }

  lemma HeadSame(seed: bv64, s: seq<byte>, t: seq<byte>, k: nat)
    requires |s| == |t| && k == Whole32(|s|) && s[..k] == t[..k]
    ensures Head64(seed, s) == Head64(seed, t)
  {
    hide Converge64, Stripes64, Start64, Small64;
  }

  lemma UnitBehind(length: nat, p: nat, n: nat, k: nat)
    requires Unit(length, p, n) && p + n <= length && k == Whole32(length) && k <= p
    ensures Unit(length - k, p - k, n)
  {
    var a := k / 32;
    Remainder8(length, k, a);
    Remainder4(length, k, a);
    Remainder8(p, k, a);
  }

  lemma Remainder8(x: nat, k: nat, a: nat)
    requires k == 32 * a <= x
    ensures (x - k) % 8 == x % 8
  {
    var b := x / 8;
    assert x == 8 * b + x % 8 && x - k == 8 * (b - 4 * a) + x % 8;
  }

  lemma Remainder4(x: nat, k: nat, a: nat)
    requires k == 32 * a <= x
    ensures (x - k) % 4 == x % 4
  {
    var b := x / 4;
    assert x == 4 * b + x % 4 && x - k == 4 * (b - 8 * a) + x % 4;
  }

  /** Two inputs of equal length that differ behind their whole stripes, within one word that is read at
      once or in one byte behind the last such word, have different digests for every seed. So do all
      such inputs of less than 32 bytes. */
  lemma DigestsApart(seed: bv64, s: seq<byte>, t: seq<byte>, p: nat, n: nat)
    requires Apart(s, t, p, n) && Unit(|s|, p, n) && p >= |s| - |s| % 32
    ensures Hash64(seed, s) != Hash64(seed, t)
  {
    hide *;
    ApartBounds(s, t, p, n);
    var k := Whole32(|s|);
    UnitBehind(|s|, p, n, k);
    ApartTail(s, t, p, n, k);
    HeadSame(seed, s, t, k);
    TailsApart(seed, s, t, k, p - k, n);
  }

  /** If they differ within one word of a stripe, then after the stripes exactly one lane differs, and the
      digests are the same if and only if the lanes are merged to the same. */
  lemma StripedDigests(seed: bv64, s: seq<byte>, t: seq<byte>, p: nat)
    requires Apart(s, t, p, 8) && p % 8 == 0 && p < |s| - |s| % 32
    ensures LaneApart(LanesOf(seed, s), LanesOf(seed, t), p / 8 % 4)
    ensures Hash64(seed, s) == Hash64(seed, t) <==> Converge64(LanesOf(seed, s)) == Converge64(LanesOf(seed, t))
  {
    hide *;
    ApartBounds(s, t, p, 8);
    var k := Whole32(|s|);
    StripedLanes(seed, s, t, p, k);
    WordInside(p, k);
    HeadsAre(seed, s);
    HeadsAre(seed, t);
    ApartHead(s, t, p, 8, k);
    SameTails(seed, s, t, k);
  }

  lemma HeadsAre(seed: bv64, s: seq<byte>)
    ensures |s| >= 32 ==> Head64(seed, s) == Converge64(LanesOf(seed, s))
  {
    hide Converge64, LanesOf;
  }

  lemma WordInside(p: nat, k: nat)
    requires p % 8 == 0 && k % 32 == 0 && p < k
    ensures p + 8 <= k
  {
  }

  lemma StripedLanes(seed: bv64, s: seq<byte>, t: seq<byte>, p: nat, k: nat)
    requires Apart(s, t, p, 8) && |s| == |t| && p % 8 == 0 && p < k && k == Whole32(|s|)
    ensures LaneApart(LanesOf(seed, s), LanesOf(seed, t), p / 8 % 4)
  {
    hide Stripes64, Start64, Apart, LaneApart;
    FedApart(Start64(seed), s, t, p, k / 32, p / 8);
  }
}
