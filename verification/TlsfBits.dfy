/** The two-level bitmaps of the TLSF allocator: 32-bit words whose bit i says whether list i is
    non-empty, and the search for the first non-empty list at or after a given one. */
module TlsfBits {

  type word = bv32

  function And(a: word, b: word): word { a & b }
  function Or(a: word, b: word): word { a | b }
  function Not(a: word): word { !a }
  function Shl(a: word): word { a << 1 }

  /** 1U << k */
  function One(k: nat): word {
    if k == 0 then 1 else Shl(One(k - 1))
  }

  /** ~0U << k */
  function Ones(k: nat): word {
    if k == 0 then 0xFFFF_FFFF else Shl(Ones(k - 1))
  }

  ghost function Low(k: nat): word {
    if k == 0 then 0 else Or(Low(k - 1), One(k - 1))
  }

  predicate Bit(w: word, i: nat) { And(w, One(i)) != 0 }

  function SetBit(w: word, i: nat): word { Or(w, One(i)) }

  function ClearBit(w: word, i: nat): word { And(w, Not(One(i))) }

  function MaskFrom(w: word, i: nat): word { And(w, Ones(i)) }

  /** p is a power of two and l has exactly the bits below it. */
  ghost predicate Power(p: word, l: word) {
    p & l == 0 && p == l + 1 && p != 0
  }

  lemma ShiftStep(p: word, l: word)
    requires Power(p, l) && p != 0x8000_0000
    ensures Power(Shl(p), Or(l, p))
  {
  }

  lemma OnesStep(p: word, l: word)
    requires Power(p, l)
    ensures Shl(Not(l)) == Not(Or(l, p))
  {
  }

  lemma OneValues()
    ensures One(31) == 0x8000_0000
  {
    assert One(4) == 0x10;
    assert One(8) == 0x100;
    assert One(12) == 0x1000;
    assert One(16) == 0x1_0000;
    assert One(20) == 0x10_0000;
    assert One(24) == 0x100_0000;
    assert One(28) == 0x1000_0000;
  }

  lemma ShiftOut(p: word)
    ensures p == 0x8000_0000 || p == 0 ==> Shl(p) == 0
  {
  }

  lemma {:induction false} ZeroStays(k: nat, n: nat)
    requires k <= n && One(k) == 0
    ensures One(n) == 0
    decreases n
  {
    hide Shl;
    if k < n {
      ZeroStays(k, n - 1);
      ShiftOut(One(n - 1));
    }
  }

  /** Only bit 31 is the top bit. */
  lemma NotTop(k: nat)
    requires k < 31
    ensures One(k) != 0x8000_0000
  {
    OneValues();
    hide Shl;
    if One(k) == 0x8000_0000 {
      ShiftOut(One(k));
      assert One(k + 1) == 0;
      ZeroStays(k + 1, 31);
    }
  }

  lemma {:induction false} Powers(k: nat)
    requires k < 32
    ensures Power(One(k), Low(k))
    ensures Ones(k) == Not(Low(k))
  {
    if k == 0 {
      assert Power(1, 0);
      assert Not(0) == 0xFFFF_FFFF;
    } else {
      hide Power, Shl, Or, Not;
      Powers(k - 1);
      NotTop(k - 1);
      ShiftStep(One(k - 1), Low(k - 1));
      OnesStep(One(k - 1), Low(k - 1));
    }
  }

  lemma PowerIs(p: word, l: word)
    requires Power(p, l)
    ensures And(p, l) == 0 && p != 0
  {
  }

  lemma InOr(p: word, l: word, q: word)
    requires And(p, l) == p
    ensures And(p, Or(l, q)) == p
  {
  }

  lemma InOrRight(l: word, q: word)
    ensures And(q, Or(l, q)) == q
  {
  }

  lemma {:induction false} LowHas(i: nat, k: nat)
    requires i < k <= 32
    ensures And(One(i), Low(k)) == One(i)
    decreases k
  {
    hide And, Or, Shl, One;
    if i < k - 1 {
      LowHas(i, k - 1);
      InOr(One(i), Low(k - 1), One(k - 1));
    } else {
      InOrRight(Low(k - 1), One(k - 1));
    }
  }

  lemma DisjointOf(p: word, l: word, q: word)
    requires And(p, l) == p && And(q, l) == 0
    ensures And(p, q) == 0 && And(q, p) == 0
  {
  }

  lemma Disjoint(i: nat, j: nat)
    requires i < 32 && j < 32 && i != j
    ensures And(One(i), One(j)) == 0
  {
    hide And, Or, Shl, One, Low, Power;
    if i < j {
      LowHas(i, j);
      Powers(j);
      PowerIs(One(j), Low(j));
      DisjointOf(One(i), Low(j), One(j));
    } else {
      LowHas(j, i);
      Powers(i);
      PowerIs(One(i), Low(i));
      DisjointOf(One(j), Low(i), One(i));
    }
  }

  lemma OrHas(w: word, q: word)
    ensures And(Or(w, q), q) == q
  {
  }

  lemma OrElse(w: word, p: word, q: word)
    requires And(p, q) == 0
    ensures And(Or(w, p), q) == And(w, q)
  {
  }

  lemma NotHas(w: word, q: word)
    ensures And(And(w, Not(q)), q) == 0
  {
  }

  lemma NotElse(w: word, p: word, q: word)
    requires And(p, q) == 0
    ensures And(And(w, Not(p)), q) == And(w, q)
  {
  }

  lemma SetBitAt(w: word, i: nat, j: nat)
    requires i < 32 && j < 32
    ensures Bit(SetBit(w, i), j) <==> i == j || Bit(w, j)
    ensures Bit(ClearBit(w, i), j) <==> i != j && Bit(w, j)
  {
    hide And, Or, Not, Shl, One, Low, Power;
    Powers(j);
    PowerIs(One(j), Low(j));
    if i != j {
      Disjoint(i, j);
      OrElse(w, One(i), One(j));
      NotElse(w, One(i), One(j));
    } else {
      OrHas(w, One(j));
      NotHas(w, One(j));
    }
  }

  lemma MaskIn(w: word, l: word, p: word)
    requires And(p, l) == p
    ensures And(And(w, Not(l)), p) == 0
  {
  }

  lemma MaskOut(w: word, l: word, p: word)
    requires And(p, l) == 0
    ensures And(And(w, Not(l)), p) == And(w, p)
  {
  }

  lemma {:induction false} LowLacks(k: nat, j: nat)
    requires k <= j < 32
    ensures And(One(j), Low(k)) == 0
    decreases k
  {
    if k == 0 {
      hide One;
      assert And(One(j), 0) == 0;
    } else {
      hide And, Or, Shl, One;
      LowLacks(k - 1, j);
      Disjoint(j, k - 1);
      OrZero(One(j), Low(k - 1), One(k - 1));
    }
  }

  lemma OrZero(p: word, l: word, q: word)
    requires And(p, l) == 0 && And(p, q) == 0
    ensures And(p, Or(l, q)) == 0
  {
  }

  lemma MaskAt(w: word, i: nat, j: nat)
    requires i < 32 && j < 32
    ensures Bit(MaskFrom(w, i), j) <==> i <= j && Bit(w, j)
  {
    hide And, Or, Not, Shl, One, Ones, Low, Power;
    Powers(i);
    if j < i {
      LowHas(j, i);
      MaskIn(w, Low(i), One(j));
    } else {
      LowLacks(i, j);
      MaskOut(w, Low(i), One(j));
    }
  }

  lemma AndZero(w: word)
    ensures And(w, 0) == 0 && And(0, w) == 0
  {
  }

  lemma {:induction false} NoBitsBelow(w: word, k: nat)
    requires forall i: nat | i < k :: !Bit(w, i)
    ensures And(w, Low(k)) == 0
  {
    hide And, Or, One;
    if k > 0 {
      NoBitsBelow(w, k - 1);
      assert !Bit(w, k - 1);
      OrZero(w, Low(k - 1), One(k - 1));
    } else {
      AndZero(w);
    }
  }

  lemma FullMask(w: word, p: word, l: word)
    requires p == 0x8000_0000 && Power(p, l) && And(w, Or(l, p)) == 0
    ensures w == 0
  {
  }

  /** A word without bits is zero. */
  lemma NoBits(w: word)
    requires forall i: nat | i < 32 :: !Bit(w, i)
    ensures w == 0
  {
    hide And, Or, One, Power, Bit;
    NoBitsBelow(w, 32);
    Powers(31);
    OneValues();
    FullMask(w, One(31), Low(31));
  }

  /** tlsf_ffs: the lowest bit of a word at or above k. */
  function LowestFrom(w: word, k: nat): (r: nat)
    requires k <= 32
    ensures k <= r <= 32
    ensures forall i: nat | k <= i < r :: !Bit(w, i)
    ensures r < 32 ==> Bit(w, r)
    decreases 32 - k
  {
    if k == 32 || Bit(w, k) then k else LowestFrom(w, k + 1)
  }

  function Ffs(w: word): (r: nat)
    requires w != 0
    ensures r < 32 && Bit(w, r)
    ensures forall i: nat | i < r :: !Bit(w, i)
  {
    FfsFound(w);
    LowestFrom(w, 0)
  }

  lemma FfsFound(w: word)
    requires w != 0
    ensures LowestFrom(w, 0) < 32
  {
    hide Bit, LowestFrom;
    if forall i: nat | i < 32 :: !Bit(w, i) {
      NoBits(w);
    }
  }

  /** What the bitmaps say about the list heads: `empty` marks an empty list. */
  ghost predicate Bitmaps(heads: seq<nat>, empty: nat, sl: seq<word>, fl: word) {
    && |heads| == 800 && |sl| == 25
    && (forall i: nat, j: nat | i < 25 && j < 32 :: ListBit(heads, empty, sl, i, j))
    && (forall i: nat | i < 32 :: RowBit(sl, fl, i))
  }

  ghost predicate ListBit(heads: seq<nat>, empty: nat, sl: seq<word>, i: nat, j: nat)
    requires |heads| == 800 && |sl| == 25 && i < 25 && j < 32
  {
    var c := 32 * i + j;
    Bit(sl[i], j) <==> heads[c] != empty
  }

  ghost predicate RowBit(sl: seq<word>, fl: word, i: nat)
    requires |sl| == 25
  {
    Bit(fl, i) <==> i < 25 && sl[i] != 0
  }

  /** insert_free_block sets both bits. */
  lemma BitmapsAfterInsert(heads: seq<nat>, empty: nat, sl: seq<word>, fl: word, i: nat, j: nat, b: nat)
    requires Bitmaps(heads, empty, sl, fl) && i < 25 && j < 32 && b != empty
    ensures Bitmaps(heads[32 * i + j := b], empty, sl[i := SetBit(sl[i], j)], SetBit(fl, i))
  {
    hide Bit, SetBit;
    var sl2 := sl[i := SetBit(sl[i], j)];
    var heads2 := heads[32 * i + j := b];
    var fl2 := SetBit(fl, i);
    forall i2: nat, j2: nat | i2 < 25 && j2 < 32 ensures ListBit(heads2, empty, sl2, i2, j2) {
      assert ListBit(heads, empty, sl, i2, j2);
      SetBitAt(sl[i], j, j2);
      assert 32 * i2 + j2 == 32 * i + j <==> i == i2 && j == j2;
    }
    forall i2: nat | i2 < 32 ensures RowBit(sl2, fl2, i2) {
      assert RowBit(sl, fl, i2);
      SetBitAt(fl, i, i2);
      SetBitNonzero(sl[i], j);
    }
  }

  lemma SetBitNonzero(w: word, j: nat)
    requires j < 32
    ensures SetBit(w, j) != 0
  {
    SetBitAt(w, j, j);
    BitNonzero(SetBit(w, j), j);
  }

  lemma BitNonzero(w: word, j: nat)
    requires Bit(w, j)
    ensures w != 0
  {
    hide One;
    AndZero(One(j));
  }

  /** remove_free_block replaces the head, and clears bits when the list or its row is empty now. */
  lemma BitmapsAfterRemove(heads: seq<nat>, empty: nat, sl: seq<word>, fl: word, i: nat, j: nat, next: nat)
    returns (sl2: seq<word>, fl2: word)
    requires Bitmaps(heads, empty, sl, fl) && i < 25 && j < 32 && heads[32 * i + j] != empty
    ensures sl2 == if next == empty then sl[i := ClearBit(sl[i], j)] else sl
    ensures fl2 == if next == empty && sl2[i] == 0 then ClearBit(fl, i) else fl
    ensures Bitmaps(heads[32 * i + j := next], empty, sl2, fl2)
  {
    hide Bit, ClearBit;
    sl2 := if next == empty then sl[i := ClearBit(sl[i], j)] else sl;
    fl2 := if next == empty && sl2[i] == 0 then ClearBit(fl, i) else fl;
    var heads2 := heads[32 * i + j := next];
    assert ListBit(heads, empty, sl, i, j);
    forall i2: nat, j2: nat | i2 < 25 && j2 < 32 ensures ListBit(heads2, empty, sl2, i2, j2) {
      assert ListBit(heads, empty, sl, i2, j2);
      SetBitAt(sl[i], j, j2);
      assert 32 * i2 + j2 == 32 * i + j <==> i == i2 && j == j2;
    }
    BitNonzero(sl[i], j);
    forall i2: nat | i2 < 32 ensures RowBit(sl2, fl2, i2) {
      assert RowBit(sl, fl, i2);
      SetBitAt(fl, i, i2);
    }
  }

  /** Its second part: the first non-empty list in a row behind fl. */
  method SearchRows(heads: seq<nat>, empty: nat, slBitmap: seq<word>, flBitmap: word, fl: nat)
    returns (found: bool, fl2: nat, sl2: nat)
    requires Bitmaps(heads, empty, slBitmap, flBitmap) && fl < 25
    ensures found ==> fl < fl2 < 25 && sl2 < 32 && heads[32 * fl2 + sl2] != empty
    ensures forall c: nat | 32 * (fl + 1) <= c < (if found then 32 * fl2 + sl2 else 800) :: heads[c] == empty
  {
    hide Bit, MaskFrom;
    found, fl2, sl2 := true, fl, 0;
    var flMap := MaskFrom(flBitmap, fl + 1);
    if flMap == 0 {
      RowsEmpty(heads, empty, slBitmap, flBitmap, fl + 1, 25, flMap);
      found := false;
      return;
    }
    fl2 := Ffs(flMap);
    RowFound(slBitmap, flBitmap, fl + 1, fl2, flMap);
    RowsEmpty(heads, empty, slBitmap, flBitmap, fl + 1, fl2, flMap);
    var slMap := slBitmap[fl2];
    MaskNone(slMap);
    sl2 := Ffs(slMap);
    RowEmpty(heads, empty, slBitmap, flBitmap, fl2, 0, sl2, slMap);
    RangesJoin(heads, empty, 32 * (fl + 1), 32 * fl2, 32 * fl2 + sl2);
    assert ListBit(heads, empty, slBitmap, fl2, sl2);
  }

  /** search_suitable_block: the first non-empty list at or after the given one, if there is any. */
  method SearchSuitable(heads: seq<nat>, empty: nat, slBitmap: seq<word>, flBitmap: word, fl: nat, sl: nat)
    returns (found: bool, fl2: nat, sl2: nat)
    requires Bitmaps(heads, empty, slBitmap, flBitmap) && fl < 25 && sl < 32
    ensures found ==> fl2 < 25 && sl2 < 32 && 32 * fl + sl <= 32 * fl2 + sl2 && heads[32 * fl2 + sl2] != empty
    ensures found ==> forall c: nat | 32 * fl + sl <= c < 32 * fl2 + sl2 :: heads[c] == empty
    ensures !found ==> forall c: nat | 32 * fl + sl <= c < 800 :: heads[c] == empty
  {
    hide Bit, MaskFrom;
    found, fl2, sl2 := true, fl, sl;
    var slMap := MaskFrom(slBitmap[fl], sl);
    if slMap == 0 {
      RowEmpty(heads, empty, slBitmap, flBitmap, fl, sl, 32, slMap);
      found, fl2, sl2 := SearchRows(heads, empty, slBitmap, flBitmap, fl);
      RangesJoin(heads, empty, 32 * fl + sl, 32 * (fl + 1), if found then 32 * fl2 + sl2 else 800);
      return;
    }
    sl2 := Ffs(slMap);
    MaskAt(slBitmap[fl], sl, sl2);
    RowEmpty(heads, empty, slBitmap, flBitmap, fl, sl, sl2, slMap);
    assert ListBit(heads, empty, slBitmap, fl2, sl2);
  }

  /** The lists from a to b are empty. */
  ghost predicate EmptyFrom(heads: seq<nat>, empty: nat, a: nat, b: nat) {
    forall c: nat | a <= c < b && c < |heads| :: heads[c] == empty
  }

  lemma RangesJoin(heads: seq<nat>, empty: nat, a: nat, b: nat, c: nat)
    requires EmptyFrom(heads, empty, a, b) && EmptyFrom(heads, empty, b, c)
    ensures EmptyFrom(heads, empty, a, c)
  {
  }

  lemma MaskNone(w: word)
    ensures MaskFrom(w, 0) == w
  {
    assert Ones(0) == 0xFFFF_FFFF;
    assert And(w, 0xFFFF_FFFF) == w;
  }

  lemma BitsOfZero(i: nat)
    ensures !Bit(0, i)
  {
    hide One;
    AndZero(One(i));
  }

  /** The lists of row i from j to k are empty when the masked row has no bit below k. */
  lemma RowEmpty(heads: seq<nat>, empty: nat, sl: seq<word>, fl: word, i: nat, j: nat, k: nat, masked: word)
    requires Bitmaps(heads, empty, sl, fl) && i < 25 && j <= k <= 32 && j < 32
    requires masked == MaskFrom(sl[i], j) && forall h: nat | h < k :: masked == 0 || !Bit(masked, h)
    ensures EmptyFrom(heads, empty, 32 * i + j, 32 * i + k)
  {
    hide Bit, MaskFrom;
    var from := 32 * i;
    forall c: nat | from + j <= c < from + k ensures heads[c] == empty {
      var h := c - from;
      if masked == 0 { BitsOfZero(h); }
      assert !Bit(masked, h);
      MaskAt(sl[i], j, h);
      assert ListBit(heads, empty, sl, i, h);
    }
  }

  /** The rows from i to k are empty when the masked first-level masked has no bit below k. */
  lemma RowsEmpty(heads: seq<nat>, empty: nat, sl: seq<word>, fl: word, i: nat, k: nat, masked: word)
    requires Bitmaps(heads, empty, sl, fl) && i <= k <= 25
    requires masked == MaskFrom(fl, i) && forall h: nat | h < k :: masked == 0 || !Bit(masked, h)
    ensures EmptyFrom(heads, empty, 32 * i, 32 * k)
  {
    hide Bit, MaskFrom;
    forall c: nat | 32 * i <= c < 32 * k ensures heads[c] == empty {
      var row := c / 32;
      var h := c % 32;
      if masked == 0 { BitsOfZero(row); }
      assert !Bit(masked, row);
      MaskAt(fl, i, row);
      assert RowBit(sl, fl, row);
      BitsOfZero(h);
      assert ListBit(heads, empty, sl, row, h);
    }
  }

  lemma RowFound(sl: seq<word>, fl: word, i: nat, k: nat, masked: word)
    requires |sl| == 25 && (forall i: nat | i < 32 :: RowBit(sl, fl, i))
    requires i <= 25 && k < 32 && masked == MaskFrom(fl, i) && Bit(masked, k)
    ensures i <= k < 25 && sl[k] != 0
  {
    MaskAt(fl, i, k);
    assert RowBit(sl, fl, k);
  }
}
