/** XXH32 tells inputs apart: every step of it can be undone, so that two inputs of equal length that
    differ in one word only never have the same digest, whatever the seed. */
module XxDistinct32 {
  import opened Lz4Block
  import opened XxHash32
  import opened XxApart

  // ------------------------------------------------------------- single steps

  function Over1(x: bv32): bv32 { x * 244002641 }
  function Over2(x: bv32): bv32 { x * 3066638151 }
  function Over3(x: bv32): bv32 { x * 2828982549 }
  function Over4(x: bv32): bv32 { x * 2701016015 }
  function Over5(x: bv32): bv32 { x * 2923004241 }

  lemma Undo1(x: bv32)
    ensures Over1(Times1(x)) == x
  {
    assert Over1(x * 2654435761) == x;
  }

  lemma Undo2(x: bv32)
    ensures Over2(Times2(x)) == x
  {
    assert Over2(x * 2246822519) == x;
  }

  lemma Undo3(x: bv32)
    ensures Over3(Times3(x)) == x
  {
    assert Over3(x * 3266489917) == x;
  }

  lemma Undo4(x: bv32)
    ensures Over4(Times4(x)) == x
  {
    assert Over4(x * 668265263) == x;
  }

  lemma Undo5(x: bv32)
    ensures Over5(Times5(x)) == x
  {
    assert Over5(x * 374761393) == x;
  }

  lemma UndoRotl13(x: bv32)
    ensures Rotl32(Rotl32(x, 13), 19) == x
  {
  }

  lemma UndoRotl17(x: bv32)
    ensures Rotl32(Rotl32(x, 17), 15) == x
  {
  }

  lemma UndoRotl11(x: bv32)
    ensures Rotl32(Rotl32(x, 11), 21) == x
  {
  }

  lemma UndoRotl1(x: bv32)
    ensures Rotl32(Rotl32(x, 1), 31) == x
  {
  }

  lemma UndoRotl7(x: bv32)
    ensures Rotl32(Rotl32(x, 7), 25) == x
  {
  }

  lemma UndoRotl12(x: bv32)
    ensures Rotl32(Rotl32(x, 12), 20) == x
  {
  }

  lemma UndoRotl18(x: bv32)
    ensures Rotl32(Rotl32(x, 18), 14) == x
  {
  }

  function Unshift15(y: bv32): bv32 { y ^ (y >> 15) ^ (y >> 30) }

  lemma UndoShift15(x: bv32)
    ensures Unshift15(Shift15(x)) == x
  {
    assert Unshift15(x ^ (x >> 15)) == x;
  }

  function Unshift13(y: bv32): bv32 { y ^ (y >> 13) ^ (y >> 26) }

  lemma UndoShift13(x: bv32)
    ensures Unshift13(Shift13(x)) == x
  {
    assert Unshift13(x ^ (x >> 13)) == x;
  }

  function Unshift16(y: bv32): bv32 { y ^ (y >> 16) }

  lemma UndoShift16(x: bv32)
    ensures Unshift16(Shift16(x)) == x
  {
    assert Unshift16(x ^ (x >> 16)) == x;
  }

  function Less(s: bv32, a: bv32): bv32 { s - a }

  lemma UndoSum(a: bv32, b: bv32)
    ensures Less(Sum(a, b), a) == b && Less(Sum(a, b), b) == a
  {
    assert Less(a + b, a) == b && Less(a + b, b) == a;
  }

  lemma AvalancheApart(h: bv32, g: bv32)
    requires Avalanche32(h) == Avalanche32(g)
    ensures h == g
  {
    hide Times2, Times3, Over2, Over3, Shift13, Shift15, Shift16, Unshift13, Unshift15, Unshift16;
    var a, b := Times2(Shift15(h)), Times2(Shift15(g));
    UndoShift16(Times3(Shift13(a)));
    UndoShift16(Times3(Shift13(b)));
    Undo3(Shift13(a));
    Undo3(Shift13(b));
    UndoShift13(a);
    UndoShift13(b);
    Undo2(Shift15(h));
    Undo2(Shift15(g));
    UndoShift15(h);
    UndoShift15(g);
  }

  /** A round tells lanes apart by their words, and words by their lanes. */
  lemma RoundApart(a: bv32, b: bv32, v: bv32, w: bv32)
    requires Round32(a, v) == Round32(b, w)
    ensures a == b <==> v == w
  {
    hide Less, Sum, Over1, Over2, Times1, Times2, Rotl32;
    var x, y := Sum(a, Times2(v)), Sum(b, Times2(w));
    Undo1(Rotl32(x, 13));
    Undo1(Rotl32(y, 13));
    UndoRotl13(x);
    UndoRotl13(y);
    UndoSum(a, Times2(v));
    UndoSum(b, Times2(w));
    Undo2(v);
    Undo2(w);
  }

  lemma Mix4Apart(h: bv32, g: bv32, v: bv32, w: bv32)
    requires Mix4(h, v) == Mix4(g, w)
    ensures h == g <==> v == w
  {
    hide Less, Sum, Over3, Over4, Times3, Times4, Rotl32;
    var x, y := Sum(h, Times3(v)), Sum(g, Times3(w));
    Undo4(Rotl32(x, 17));
    Undo4(Rotl32(y, 17));
    UndoRotl17(x);
    UndoRotl17(y);
    UndoSum(h, Times3(v));
    UndoSum(g, Times3(w));
    Undo3(v);
    Undo3(w);
  }

  lemma Mix1Apart(h: bv32, g: bv32, b: byte, c: byte)
    requires Mix1(h, b) == Mix1(g, c)
    ensures h == g <==> b == c
  {
    hide Less, Sum, Over1, Over5, Times1, Times5, Rotl32, Widen;
    var v, w := Widen(b), Widen(c);
    var x, y := Sum(h, Times5(v)), Sum(g, Times5(w));
    Undo1(Rotl32(x, 11));
    Undo1(Rotl32(y, 11));
    UndoRotl11(x);
    UndoRotl11(y);
    UndoSum(h, Times5(v));
    UndoSum(g, Times5(w));
    Undo5(v);
    Undo5(w);
    if v == w { BytesApart(b, c); }
  }

  lemma ByteIs(a: byte)
    ensures Widen(a) == (a as bv8) as bv32 && (a as bv8) as int == a && Widen(a) & 0xFF == Widen(a)
  {
  }

  lemma BytesApart(a: byte, b: byte)
    requires Widen(a) == Widen(b)
    ensures a == b
  {
    ByteIs(a);
    ByteIs(b);
  }

  function Low8(w: bv32): bv32 { w & 0xFF }
  function Second8(w: bv32): bv32 { (w >> 8) & 0xFF }
  function Third8(w: bv32): bv32 { (w >> 16) & 0xFF }
  function High8(w: bv32): bv32 { w >> 24 }

  lemma UndoJoin(a: bv32, b: bv32, c: bv32, d: bv32)
    requires a & 0xFF == a && b & 0xFF == b && c & 0xFF == c && d & 0xFF == d
    ensures var w := Join32(a, b, c, d); Low8(w) == a && Second8(w) == b && Third8(w) == c && High8(w) == d
  {
  }

  lemma WordsApart(a: byte, b: byte, c: byte, d: byte, a2: byte, b2: byte, c2: byte, d2: byte)
    requires LittleEndian32(a, b, c, d) == LittleEndian32(a2, b2, c2, d2)
    ensures a == a2 && b == b2 && c == c2 && d == d2
  {
    UndoWord(a, b, c, d);
    UndoWord(a2, b2, c2, d2);
    hide *;
    BytesApart(a, a2);
    BytesApart(b, b2);
    BytesApart(c, c2);
    BytesApart(d, d2);
  }

  lemma UndoWord(a: byte, b: byte, c: byte, d: byte)
    ensures var w := LittleEndian32(a, b, c, d);
      Low8(w) == Widen(a) && Second8(w) == Widen(b) && Third8(w) == Widen(c) && High8(w) == Widen(d)
  {
    ByteIs(a);
    ByteIs(b);
    ByteIs(c);
    ByteIs(d);
    hide Low8, Second8, Third8, High8, Join32, Widen;
    UndoJoin(Widen(a), Widen(b), Widen(c), Widen(d));
  }

  lemma ReadApart(s: seq<byte>, t: seq<byte>, p: nat)
    requires p + 4 <= |s| && p + 4 <= |t| && ReadLE32(s, p) == ReadLE32(t, p)
    ensures forall k | p <= k < p + 4 :: s[k] == t[k]
  {
    hide LittleEndian32;
    WordsApart(s[p], s[p + 1], s[p + 2], s[p + 3], t[p], t[p + 1], t[p + 2], t[p + 3]);
  }

  // -------------------------------------------------------------- whole inputs

  lemma ApartReads(s: seq<byte>, t: seq<byte>, p: nat, q: nat)
    requires Apart(s, t, p, 4) && p % 4 == q % 4 && q + 4 <= |s|
    ensures ReadLE32(s, q) == ReadLE32(t, q) <==> p != q
  {
    hide LittleEndian32;
    if ReadLE32(s, p) == ReadLE32(t, p) {
      ReadApart(s, t, p);
      assert false;
    }
  }

  lemma {:induction false} TailSame(h: bv32, s: seq<byte>, t: seq<byte>, p: nat)
    requires |s| == |t| && p <= |s| && forall k | p <= k < |s| :: s[k] == t[k]
    ensures Tail32(h, s, p) == Tail32(h, t, p)
    decreases |s| - p
  {
    hide Mix4, Mix1, LittleEndian32;
    if p + 4 <= |s| {
      TailSame(Mix4(h, ReadLE32(s, p)), s, t, p + 4);
    } else if p < |s| {
      TailSame(Mix1(h, s[p]), s, t, p + 1);
    }
  }

  lemma {:induction false} TailKeepsApart(h: bv32, g: bv32, s: seq<byte>, p: nat)
    requires p <= |s| && Tail32(h, s, p) == Tail32(g, s, p)
    ensures h == g
    decreases |s| - p
  {
    hide Mix4, Mix1, ReadLE32;
    if p + 4 <= |s| {
      var w := ReadLE32(s, p);
      TailKeepsApart(Mix4(h, w), Mix4(g, w), s, p + 4);
      Mix4Apart(h, g, w, w);
    } else if p < |s| {
      TailKeepsApart(Mix1(h, s[p]), Mix1(g, s[p]), s, p + 1);
      Mix1Apart(h, g, s[p], s[p]);
    }
  }

  /** A word that the hash reads at once, or a byte behind the last whole word. */
  predicate Unit(length: nat, p: nat, n: nat) {
    (n == 4 && p % 4 == 0) || (n == 1 && p >= length - length % 4)
  }

  lemma {:induction false} TailApart(h: bv32, s: seq<byte>, t: seq<byte>, p: nat, q: nat, n: nat)
    requires Apart(s, t, q, n) && Unit(|s|, q, n) && p <= q && (p % 4 == 0 || p >= |s| - |s| % 4)
    ensures Tail32(h, s, p) != Tail32(h, t, p)
    decreases |s| - p
  {
    hide Mix4, Mix1, ReadLE32;
    if p + 4 <= |s| {
      var v, w := ReadLE32(s, p), ReadLE32(t, p);
      TailWord(s, t, p, q, n);
      if p == q {
        TailSame(Mix4(h, w), s, t, p + 4);
        if Tail32(h, s, p) == Tail32(h, t, p) {
          TailKeepsApart(Mix4(h, v), Mix4(h, w), s, p + 4);
          Mix4Apart(h, h, v, w);
          assert false;
        }
      } else {
        TailApart(Mix4(h, v), s, t, p + 4, q, n);
      }
    } else if p == q {
      TailSame(Mix1(h, t[p]), s, t, p + 1);
      if Tail32(h, s, p) == Tail32(h, t, p) {
        TailKeepsApart(Mix1(h, s[p]), Mix1(h, t[p]), s, p + 1);
        Mix1Apart(h, h, s[p], t[p]);
        assert false;
      }
    } else {
      TailApart(Mix1(h, s[p]), s, t, p + 1, q, n);
    }
  }

  lemma TailWord(s: seq<byte>, t: seq<byte>, p: nat, q: nat, n: nat)
    requires Apart(s, t, q, n) && Unit(|s|, q, n) && p <= q && p + 4 <= |s| && (p % 4 == 0 || p >= |s| - |s| % 4)
    ensures ReadLE32(s, p) == ReadLE32(t, p) <==> p != q
    ensures p == q ==> n == 4
    ensures p < q ==> p + 4 <= q
  {
    hide ReadLE32;
    assert p % 4 == 0;
    if n == 4 {
      ApartReads(s, t, q, p);
    } else {
      SameRead(s, t, p);
    }
  }

  lemma SameRead(s: seq<byte>, t: seq<byte>, p: nat)
    requires p + 4 <= |s| && p + 4 <= |t| && forall k | p <= k < p + 4 :: s[k] == t[k]
    ensures ReadLE32(s, p) == ReadLE32(t, p)
  {
    hide LittleEndian32;
  }

  // -------------------------------------------------------------------- lanes

  function Lane(v: Lanes32, j: nat): bv32
    requires j < 4
  {
    if j == 0 then v.v1 else if j == 1 then v.v2 else if j == 2 then v.v3 else v.v4
  }

  /** v and u are the same but for lane j. */
  ghost predicate LaneApart(v: Lanes32, u: Lanes32, j: nat) {
    j < 4 && forall i: nat | i < 4 :: Lane(v, i) == Lane(u, i) <==> i != j
  }

  /** Word j of the stripe at e. */
  function StripeWord(s: seq<byte>, e: nat, j: nat): bv32
    requires e + 16 <= |s| && j < 4
  {
    ReadLE32(s, e + 4 * j)
  }

  lemma StripeLane(v: Lanes32, s: seq<byte>, e: nat, j: nat)
    requires e + 16 <= |s| && j < 4
    ensures Lane(Stripe32(v, s, e), j) == Round32(Lane(v, j), StripeWord(s, e, j))
  {
    hide Round32, ReadLE32;
  }

  ghost predicate SameWord(s: seq<byte>, t: seq<byte>, e: nat, j: nat) {
    j < 4 && e + 16 <= |s| == |t| && StripeWord(s, e, j) == StripeWord(t, e, j)
  }

  /** Lanes that are the same but for one stay so when the same stripe is mixed in. */
  lemma StripeAfter(v: Lanes32, u: Lanes32, s: seq<byte>, t: seq<byte>, e: nat, j0: nat)
    requires LaneApart(v, u, j0) && e + 16 <= |s| == |t| && forall j: nat | j < 4 :: SameWord(s, t, e, j)
    ensures LaneApart(Stripe32(v, s, e), Stripe32(u, t, e), j0)
  {
    hide Stripe32, Round32, StripeWord, Lane;
    forall j: nat | j < 4 ensures Lane(Stripe32(v, s, e), j) == Lane(Stripe32(u, t, e), j) <==> j != j0 {
      StripeLane(v, s, e, j);
      StripeLane(u, t, e, j);
      assert SameWord(s, t, e, j);
      if Lane(Stripe32(v, s, e), j) == Lane(Stripe32(u, t, e), j) {
        RoundApart(Lane(v, j), Lane(u, j), StripeWord(s, e, j), StripeWord(t, e, j));
      }
    }
  }

  /** They become so when a stripe is mixed in of which one word differs. */
  lemma StripeAt(v: Lanes32, s: seq<byte>, t: seq<byte>, e: nat, j0: nat)
    requires j0 < 4 && e + 16 <= |s| == |t| && forall j: nat | j < 4 :: SameWord(s, t, e, j) <==> j != j0
    ensures LaneApart(Stripe32(v, s, e), Stripe32(v, t, e), j0)
  {
    hide Stripe32, Round32, StripeWord, Lane;
    forall j: nat | j < 4 ensures Lane(Stripe32(v, s, e), j) == Lane(Stripe32(v, t, e), j) <==> j != j0 {
      StripeLane(v, s, e, j);
      StripeLane(v, t, e, j);
      assert SameWord(s, t, e, j) <==> j != j0;
      if Lane(Stripe32(v, s, e), j) == Lane(Stripe32(v, t, e), j) {
        RoundApart(Lane(v, j), Lane(v, j), StripeWord(s, e, j), StripeWord(t, e, j));
      }
    }
  }

  lemma StripeWordAt(s: seq<byte>, t: seq<byte>, p: nat, e: nat, i: nat, j: nat)
    requires Apart(s, t, p, 4) && e + 16 <= |s| && p == 4 * i && e % 4 == 0 && j < 4
    ensures SameWord(s, t, e, j) <==> p != e + 4 * j
  {
    ApartBounds(s, t, p, 4);
    var q := e + 4 * j;
    ApartReads(s, t, p, q);
    hide ReadLE32, Apart;
  }

  lemma StripeBehind(v: Lanes32, u: Lanes32, s: seq<byte>, t: seq<byte>, p: nat, e: nat, i: nat, j0: nat)
    requires Apart(s, t, p, 4) && e + 16 <= |s| == |t| && e % 4 == 0 && p == 4 * i && p < e && LaneApart(v, u, j0)
    ensures LaneApart(Stripe32(v, s, e), Stripe32(u, t, e), j0)
  {
    hide Stripe32, SameWord, LaneApart, Apart;
    forall j: nat | j < 4 ensures SameWord(s, t, e, j) {
      StripeWordAt(s, t, p, e, i, j);
    }
    StripeAfter(v, u, s, t, e, j0);
  }

  lemma StripeHit(v: Lanes32, s: seq<byte>, t: seq<byte>, p: nat, e: nat, i: nat, j0: nat)
    requires Apart(s, t, p, 4) && e + 16 <= |s| == |t| && e % 4 == 0 && p == 4 * i && p == e + 4 * j0 && j0 < 4
    ensures LaneApart(Stripe32(v, s, e), Stripe32(v, t, e), j0)
  {
    hide Stripe32, SameWord, LaneApart, Apart;
    forall j: nat | j < 4 ensures SameWord(s, t, e, j) <==> j != j0 {
      StripeWordAt(s, t, p, e, i, j);
    }
    StripeAt(v, s, t, e, j0);
  }

  lemma StripeBefore(v: Lanes32, s: seq<byte>, t: seq<byte>, p: nat, e: nat)
    requires Apart(s, t, p, 4) && e + 16 <= |s| == |t| && e + 16 <= p
    ensures Stripe32(v, s, e) == Stripe32(v, t, e)
  {
    hide Round32;
    SameRead(s, t, e);
    SameRead(s, t, e + 4);
    SameRead(s, t, e + 8);
    SameRead(s, t, e + 12);
    hide ReadLE32;
  }

  /** The lanes after n stripes. */
  function Fed(v: Lanes32, s: seq<byte>, n: nat): Lanes32
    requires 16 * n <= |s|
  {
    Stripes32(v, s[..16 * n])
  }

  lemma FedStep(v: Lanes32, s: seq<byte>, n: nat)
    requires 16 * n + 16 <= |s|
    ensures Fed(v, s, n + 1) == Stripe32(Fed(v, s, n), s, 16 * n)
  {
    hide Stripes32, Stripe32;
    StripesStep32(v, s, 16 * n);
  }

  lemma FedNone(v: Lanes32, s: seq<byte>)
    ensures Fed(v, s, 0) == v
  {
    assert s[..0] == [];
  }

  /** One word that differs leaves the lanes the same but for the one it goes to. */
  lemma {:induction false} FedApart(v: Lanes32, s: seq<byte>, t: seq<byte>, p: nat, n: nat, i: nat)
    requires Apart(s, t, p, 4) && 16 * n <= |s| == |t| && p == 4 * i
    ensures p < 16 * n ==> LaneApart(Fed(v, s, n), Fed(v, t, n), i % 4)
    ensures p >= 16 * n ==> Fed(v, s, n) == Fed(v, t, n)
    decreases n
  {
    hide *;
    if n == 0 {
      FedNone(v, s);
      FedNone(v, t);
    } else {
      var e := 16 * (n - 1);
      FedStep(v, s, n - 1);
      FedStep(v, t, n - 1);
      FedApart(v, s, t, p, n - 1, i);
      if p < e {
        StripeBehind(Fed(v, s, n - 1), Fed(v, t, n - 1), s, t, p, e, i, i % 4);
      } else if p < e + 16 {
        StripeHit(Fed(v, s, n - 1), s, t, p, e, i, i % 4);
      } else {
        StripeBefore(Fed(v, s, n - 1), s, t, p, e);
      }
    }
  }

  lemma ConvergeApart(v: Lanes32, u: Lanes32, j: nat)
    requires LaneApart(v, u, j)
    ensures Converge32(v) != Converge32(u)
  {
    LanesOf(v, u, j);
    hide LaneApart, Sum, Less, Rotl32;
    if Converge32(v) == Converge32(u) {
      UndoConverge(v);
      UndoConverge(u);
      assert false;
    }
  }

  lemma LanesOf(v: Lanes32, u: Lanes32, j: nat)
    requires LaneApart(v, u, j)
    ensures (v.v1 == u.v1 <==> j != 0) && (v.v2 == u.v2 <==> j != 1) && (v.v3 == u.v3 <==> j != 2) && (v.v4 == u.v4 <==> j != 3)
  {
    assert Lane(v, 0) == v.v1 && Lane(v, 1) == v.v2 && Lane(v, 2) == v.v3 && Lane(v, 3) == v.v4;
    assert Lane(u, 0) == u.v1 && Lane(u, 1) == u.v2 && Lane(u, 2) == u.v3 && Lane(u, 3) == u.v4;
  }

  lemma UndoConverge(v: Lanes32)
    ensures var a, b, c, d := Rotl32(v.v1, 1), Rotl32(v.v2, 7), Rotl32(v.v3, 12), Rotl32(v.v4, 18);
      && Rotl32(a, 31) == v.v1 && Rotl32(b, 25) == v.v2 && Rotl32(c, 20) == v.v3 && Rotl32(d, 14) == v.v4
      && Less(Sum(a, b), a) == b && Less(Sum(a, b), b) == a
      && Less(Sum(Sum(a, b), c), Sum(a, b)) == c && Less(Sum(Sum(a, b), c), c) == Sum(a, b)
      && Less(Sum(Sum(Sum(a, b), c), d), Sum(Sum(a, b), c)) == d && Less(Sum(Sum(Sum(a, b), c), d), d) == Sum(Sum(a, b), c)
  {
    hide *;
    var a, b, c, d := Rotl32(v.v1, 1), Rotl32(v.v2, 7), Rotl32(v.v3, 12), Rotl32(v.v4, 18);
    UndoRotl1(v.v1);
    UndoRotl7(v.v2);
    UndoRotl12(v.v3);
    UndoRotl18(v.v4);
    UndoSum(a, b);
    UndoSum(Sum(a, b), c);
    UndoSum(Sum(Sum(a, b), c), d);
  }

  // ------------------------------------------------------------------ digests

  lemma LengthApart(h: bv32, g: bv32, n: nat)
    requires AddLength32(h, n) == AddLength32(g, n)
    ensures h == g
  {
    hide Sum, Less, Word32;
    var w := Word32(n % 0x1_0000_0000);
    UndoSum(h, w);
    UndoSum(g, w);
  }

  /** Before the tail: the lanes, or the seed alone. */
  function Head32(seed: bv32, s: seq<byte>, k: nat): bv32
    requires k <= |s| && k % 16 == 0
  {
    if |s| >= 16 then Converge32(Stripes32(Start32(seed), s[..k])) else Small32(seed)
  }

  lemma HashIs(seed: bv32, s: seq<byte>)
    ensures var k := Whole16(|s|); Hash32(seed, s) == Avalanche32(Tail32(AddLength32(Head32(seed, s, k), |s|), s[k..], 0))
  {
    hide Avalanche32, Tail32, AddLength32, Converge32, Stripes32, Start32, Small32;
  }

  lemma SameTails(seed: bv32, s: seq<byte>, t: seq<byte>, k: nat)
    requires |s| == |t| && k == Whole16(|s|) && s[k..] == t[k..] && Hash32(seed, s) == Hash32(seed, t)
    ensures Head32(seed, s, k) == Head32(seed, t, k)
  {
    hide Hash32, Head32, Avalanche32, Tail32, AddLength32, Whole16;
    HashIs(seed, s);
    HashIs(seed, t);
    var h, g, n := Head32(seed, s, k), Head32(seed, t, k), |s|;
    var x, y := AddLength32(h, n), AddLength32(g, n);
    AvalancheApart(Tail32(x, s[k..], 0), Tail32(y, t[k..], 0));
    TailKeepsApart(x, y, s[k..], 0);
    LengthApart(h, g, n);
  }

  lemma TailsApart(seed: bv32, s: seq<byte>, t: seq<byte>, k: nat, p: nat, n: nat)
    requires |s| == |t| && k == Whole16(|s|) && Head32(seed, s, k) == Head32(seed, t, k)
    requires Apart(s[k..], t[k..], p, n) && Unit(|s| - k, p, n)
    ensures Hash32(seed, s) != Hash32(seed, t)
  {
    hide Hash32, Head32, Avalanche32, Tail32, AddLength32, Whole16, Apart;
    HashIs(seed, s);
    HashIs(seed, t);
    var x := AddLength32(Head32(seed, s, k), |s|);
    TailApart(x, s[k..], t[k..], 0, p, n);
    if Avalanche32(Tail32(x, s[k..], 0)) == Avalanche32(Tail32(x, t[k..], 0)) {
      AvalancheApart(Tail32(x, s[k..], 0), Tail32(x, t[k..], 0));
    }
  }

  lemma HeadApart(seed: bv32, s: seq<byte>, t: seq<byte>, p: nat, k: nat)
    requires Apart(s, t, p, 4) && k <= |s| == |t| && p % 4 == 0 && p < k && k % 16 == 0
    ensures Head32(seed, s, k) != Head32(seed, t, k)
  {
    hide Converge32, Stripes32, Start32, Small32, Apart, LaneApart;
    var v, n := Start32(seed), k / 16;
    FedApart(v, s, t, p, n, p / 4);
    ConvergeApart(Fed(v, s, n), Fed(v, t, n), p / 4 % 4);
  }

  lemma HeadSame(seed: bv32, s: seq<byte>, t: seq<byte>, k: nat)
    requires |s| == |t| && k <= |s| && k % 16 == 0 && s[..k] == t[..k]
    ensures Head32(seed, s, k) == Head32(seed, t, k)
  {
    hide Converge32, Stripes32, Start32, Small32;
  }

  lemma StripedApart(seed: bv32, s: seq<byte>, t: seq<byte>, p: nat, k: nat)
    requires Apart(s, t, p, 4) && p % 4 == 0 && p < k && k == Whole16(|s|)
    ensures Hash32(seed, s) != Hash32(seed, t)
  {
    ApartBounds(s, t, p, 4);
    hide Hash32, Head32, Apart;
    ApartHead(s, t, p, 4, k);
    HeadApart(seed, s, t, p, k);
    if Hash32(seed, s) == Hash32(seed, t) { SameTails(seed, s, t, k); }
  }

  lemma RestApart(seed: bv32, s: seq<byte>, t: seq<byte>, p: nat, n: nat, k: nat)
    requires Apart(s, t, p, n) && k <= p && k <= |s| && Unit(|s| - k, p - k, n) && k == Whole16(|s|)
    ensures Hash32(seed, s) != Hash32(seed, t)
  {
    ApartBounds(s, t, p, n);
    hide Hash32, Head32, Apart, Unit;
    ApartTail(s, t, p, n, k);
    HeadSame(seed, s, t, k);
    TailsApart(seed, s, t, k, p - k, n);
  }

  lemma UnitIn(length: nat, p: nat, n: nat, k: nat)
    requires Unit(length, p, n) && p + n <= length && k == Whole16(length)
    ensures p < k ==> n == 4 && p + 4 <= k
    ensures p >= k ==> Unit(length - k, p - k, n)
  {
    MultipleIn(p, k, k / 16);
    LastWords(length, k, k / 16);
  }

  lemma LastWords(length: nat, k: nat, a: nat)
    requires k == 16 * a <= length
    ensures (length - k) % 4 == length % 4 && k <= length - length % 4
  {
    var b := length / 4;
    assert length == 4 * b + length % 4 && length - k == 4 * (b - 4 * a) + length % 4;
  }

  lemma MultipleIn(p: nat, k: nat, a: nat)
    requires k == 16 * a
    ensures p % 4 == 0 && p < k ==> p + 4 <= k
    ensures p % 4 == 0 && p >= k ==> (p - k) % 4 == 0
  {
  }

  /** Two inputs of equal length that differ within one aligned word, or in one byte behind the last
      whole word, have different digests for every seed. */
  lemma DigestsApart(seed: bv32, s: seq<byte>, t: seq<byte>, p: nat, n: nat)
    requires Apart(s, t, p, n) && Unit(|s|, p, n)
    ensures Hash32(seed, s) != Hash32(seed, t)
  {
    ApartBounds(s, t, p, n);
    var k := Whole16(|s|);
    UnitIn(|s|, p, n, k);
    hide Hash32, Apart;
    if p < k {
      StripedApart(seed, s, t, p, k);
    } else {
      hide Unit;
      RestApart(seed, s, t, p, n, k);
    }
  }
}
