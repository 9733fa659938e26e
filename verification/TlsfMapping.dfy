/** Segregated sizes of the TLSF allocator: which of the 25 x 32 free lists a block size belongs
    to, and at which list a search for a size begins. */
module TlsfMapping {

  const SL_INDEX_COUNT := 32
  const FL_INDEX_COUNT := 25
  const CLASSES := 800
  const SMALL_BLOCK_SIZE := 256
  const BLOCK_SIZE_MIN := 24
  const BLOCK_SIZE_MAX := 0x1_0000_0000

  function Pow2(k: nat): (r: nat)
    ensures r >= 1
  {
    if k == 0 then 1 else 2 * Pow2(k - 1)
  }

  /** tlsf_fls_sizet: the position of the highest bit. */
  function Fls(n: nat): (r: nat)
    requires n > 0
    ensures Pow2(r) <= n < Pow2(r + 1)
  {
    if n == 1 then 0 else 1 + Fls(n / 2)
  }

  lemma {:induction false} Pow2Monotone(a: nat, b: nat)
    requires a <= b
    ensures Pow2(a) <= Pow2(b)
    decreases b
  {
    if a < b {
      Pow2Monotone(a, b - 1);
    }
  }

  /** The bounds of Fls determine it. */
  lemma FlsUnique(n: nat, k: nat)
    requires n > 0 && Pow2(k) <= n < Pow2(k + 1)
    ensures Fls(n) == k
  {
    if Fls(n) < k {
      Pow2Monotone(Fls(n) + 1, k);
    } else if Fls(n) > k {
      Pow2Monotone(k + 1, Fls(n));
    }
  }

  lemma Pow2Add8(k: nat)
    ensures Pow2(k + 8) == 256 * Pow2(k)
    ensures Pow2(k + 5) == 32 * Pow2(k)
  {
    assert Pow2(k + 1) == 2 * Pow2(k);
    assert Pow2(k + 2) == 4 * Pow2(k);
    assert Pow2(k + 3) == 8 * Pow2(k);
    assert Pow2(k + 4) == 16 * Pow2(k);
    assert Pow2(k + 5) == 32 * Pow2(k);
    assert Pow2(k + 6) == 64 * Pow2(k);
    assert Pow2(k + 7) == 128 * Pow2(k);
  }

  lemma Pow2Values()
    ensures Pow2(3) == 8 && Pow2(8) == 256 && Pow2(31) == 0x8000_0000 && Pow2(32) == 0x1_0000_0000
  {
    Pow2Add8(0);
    Pow2Add8(8);
    Pow2Add8(16);
    Pow2Add8(24);
    assert Pow2(1) == 2;
    assert Pow2(2) == 4;
    assert Pow2(32) == 2 * Pow2(31);
  }

  lemma FlsRange(n: nat)
    requires 256 <= n
    ensures Fls(n) >= 8
    ensures n < BLOCK_SIZE_MAX ==> Fls(n) <= 31
  {
    Pow2Values();
    if Fls(n) < 8 {
      Pow2Monotone(Fls(n) + 1, 8);
    }
    if Fls(n) >= 32 {
      Pow2Monotone(32, Fls(n));
    }
  }

  lemma MulMonotone(a: nat, b: nat, d: nat)
    requires a <= b
    ensures a * d <= b * d
  {
  }

  lemma DivBounds(n: nat, d: nat, lo: nat, hi: nat)
    requires d > 0 && lo * d <= n < hi * d
    ensures lo <= n / d < hi
  {
    var q := n / d;
    assert n == q * d + n % d;
    assert q * d <= n < (q + 1) * d;
    if q + 1 <= lo {
      MulMonotone(q + 1, lo, d);
    } else if q >= hi {
      MulMonotone(hi, q, d);
    }
  }

  /** The quotient is the only number with these bounds. */
  lemma DivIs(n: nat, d: nat, q: nat)
    requires d > 0 && q * d <= n < (q + 1) * d
    ensures n / d == q
  {
    DivBounds(n, d, q, q + 1);
  }

  /** The five bits below the highest one. */
  lemma SecondLevel(size: nat, fl: nat)
    requires fl >= 5 && Pow2(fl) <= size < Pow2(fl + 1)
    ensures 32 <= size / Pow2(fl - 5) < 64
  {
    var step := Pow2(fl - 5);
    Pow2Add8(fl - 5);
    assert Pow2(fl + 1) == 64 * step;
    DivBounds(size, step, 32, 64);
  }

  /** mapping_insert: first and second level index of a block size. */
  function MappingInsert(size: nat): (p: (nat, nat))
    ensures p.1 < SL_INDEX_COUNT
  {
    if size < SMALL_BLOCK_SIZE then (0, size / (SMALL_BLOCK_SIZE / SL_INDEX_COUNT))
    else
      FlsRange(size);
      var fl := Fls(size);
      SecondLevel(size, fl);
      (fl - 7, size / Pow2(fl - 5) - 32)
  }

  /** The lists in order: the list of a block size as one number. */
  function ClassOf(size: nat): (c: nat) {
    MappingInsert(size).0 * SL_INDEX_COUNT + MappingInsert(size).1
  }

  /** The smallest size that belongs to a list. */
  function ClassMin(c: nat): nat {
    if c < 32 then 8 * c else (32 + c % 32) * Pow2(c / 32 + 2)
  }

  /** mapping_search: rounds up to the next list, so that any block found is large enough. */
  function MappingSearch(size: nat): (p: (nat, nat))
    ensures p.1 < SL_INDEX_COUNT
  {
    if size >= SMALL_BLOCK_SIZE then
      FlsRange(size);
      MappingInsert(size + Pow2(Fls(size) - 5) - 1)
    else MappingInsert(size)
  }

  function SearchClass(size: nat): nat {
    MappingSearch(size).0 * SL_INDEX_COUNT + MappingSearch(size).1
  }

  lemma ClassIndex(size: nat)
    ensures ClassOf(size) / 32 == MappingInsert(size).0 && ClassOf(size) % 32 == MappingInsert(size).1
  {
  }

  /** The highest bit of a size and the number formed by it and the five bits below. */
  lemma Parts(size: nat) returns (fl: nat, q: nat)
    requires size >= SMALL_BLOCK_SIZE
    ensures fl == Fls(size) && fl >= 8 && 32 <= q < 64
    ensures q * Pow2(fl - 5) <= size < (q + 1) * Pow2(fl - 5)
    ensures ClassOf(size) == (fl - 7) * 32 + (q - 32)
  {
    hide Pow2, Fls;
    FlsRange(size);
    fl := Fls(size);
    var step := Pow2(fl - 5);
    SecondLevel(size, fl);
    q := size / step;
    DivSplit(size, step);
  }

  lemma DivSplit(n: nat, d: nat)
    requires d > 0
    ensures n / d * d <= n < (n / d + 1) * d
    ensures (n / d) * d + n % d == n
  {
  }

  /** A list holds exactly the sizes from its own minimum up to the next list's minimum. */
  lemma ClassBounds(size: nat)
    ensures ClassMin(ClassOf(size)) <= size < ClassMin(ClassOf(size) + 1)
  {
    hide Pow2, Fls, ClassOf, MappingInsert, ClassMin;
    if size >= SMALL_BLOCK_SIZE {
      var fl, q := Parts(size);
      NextMin(fl, q);
    } else {
      SmallBounds(size);
    }
  }

  lemma SmallBounds(size: nat)
    requires size < SMALL_BLOCK_SIZE
    ensures ClassOf(size) == size / 8
    ensures ClassMin(ClassOf(size)) <= size < ClassMin(ClassOf(size) + 1)
  {
    hide Fls;
    Pow2Values();
    var c := size / 8;
    assert ClassOf(size) == c;
    assert ClassMin(c) == 8 * c;
    assert ClassMin(c + 1) == 8 * (c + 1);
  }

  lemma NextMin(fl: nat, q: nat)
    requires fl >= 8 && 32 <= q < 64
    ensures ClassMin((fl - 7) * 32 + (q - 32)) == q * Pow2(fl - 5)
    ensures ClassMin((fl - 7) * 32 + (q - 32) + 1) == (q + 1) * Pow2(fl - 5)
  {
    var c := (fl - 7) * 32 + (q - 32);
    assert c / 32 == fl - 7 && c % 32 == q - 32;
    if q < 63 {
      assert (c + 1) / 32 == fl - 7 && (c + 1) % 32 == q - 31;
    } else {
      assert (c + 1) / 32 == fl - 6 && (c + 1) % 32 == 0;
      assert Pow2(fl - 4) == 2 * Pow2(fl - 5);
    }
  }

  lemma MinStep(c: nat)
    ensures ClassMin(c) < ClassMin(c + 1)
  {
    hide Fls;
    if c >= 32 {
      var fl := c / 32 + 7;
      var q := c % 32 + 32;
      assert c == (fl - 7) * 32 + (q - 32);
      NextMin(fl, q);
      assert q * Pow2(fl - 5) < (q + 1) * Pow2(fl - 5);
    } else if c == 31 {
      Pow2Values();
    }
  }

  lemma {:induction false} MinMonotone(a: nat, b: nat)
    requires a <= b
    ensures ClassMin(a) <= ClassMin(b)
    decreases b
  {
    if a < b {
      MinMonotone(a, b - 1);
      MinStep(b - 1);
    }
  }

  /** A size's list is the only one whose bounds it lies within. */
  lemma ClassAtLeast(size: nat, c: nat)
    ensures ClassMin(c) <= size <==> c <= ClassOf(size)
  {
    ClassBounds(size);
    if c <= ClassOf(size) {
      MinMonotone(c, ClassOf(size));
    } else {
      MinMonotone(ClassOf(size) + 1, c);
    }
  }

  /** mapping_insert is monotone in the size. */
  lemma ClassMonotone(a: nat, b: nat)
    requires a <= b
    ensures ClassOf(a) <= ClassOf(b)
  {
    ClassBounds(a);
    ClassAtLeast(b, ClassOf(a));
  }

  /** The list of a size that lies within a step of the second level. */
  lemma ClassIs(size: nat, fl: nat, q: nat)
    requires fl >= 8 && 32 <= q < 64
    requires q * Pow2(fl - 5) <= size < (q + 1) * Pow2(fl - 5)
    ensures ClassOf(size) == (fl - 7) * 32 + (q - 32)
  {
    hide Pow2, Fls, ClassOf, MappingInsert, ClassMin;
    NextMin(fl, q);
    var c := (fl - 7) * 32 + (q - 32);
    ClassAtLeast(size, c);
    ClassAtLeast(size, c + 1);
  }

  /** Rounding a number up to a multiple of d: the carry reaches the next multiple at most. */
  lemma RoundUp(n: nat, d: nat) returns (q: nat)
    requires d > 0
    ensures n / d <= q <= n / d + 1
    ensures n <= q * d <= n + d - 1 < (q + 1) * d
  {
    DivSplit(n, d);
    q := if n % d == 0 then n / d else n / d + 1;
    assert (n / d + 1) * d == n / d * d + d;
    assert (q + 1) * d == q * d + d;
  }

  lemma SearchClassIs(size: nat, up: nat)
    requires size >= SMALL_BLOCK_SIZE && Fls(size) >= 8 && up == size + Pow2(Fls(size) - 5) - 1
    ensures SearchClass(size) == ClassOf(up)
  {
    hide Pow2, Fls, MappingInsert;
  }

  /** Where a search for a size of at least 256 bytes starts: at the size rounded up to a list's minimum. */
  lemma SearchMin(size: nat, fl: nat)
    requires size >= SMALL_BLOCK_SIZE && fl == Fls(size) && fl >= 8
    ensures size <= ClassMin(SearchClass(size)) < size + Pow2(fl - 5)
  {
    hide Pow2, Fls, ClassOf, MappingInsert, ClassMin;
    var step := Pow2(fl - 5);
    SecondLevel(size, fl);
    var q := RoundUp(size, step);
    var up := size + step - 1;
    SearchClassIs(size, up);
    if q < 64 {
      NextMin(fl, q);
      ClassIs(up, fl, q);
    } else {
      NextMinCarry(fl);
      NextMin(fl + 1, 32);
      assert 32 * Pow2(fl - 4) <= up;
      assert up < 33 * Pow2(fl - 4);
      ClassIs(up, fl + 1, 32);
    }
  }

  lemma NextMinCarry(fl: nat)
    requires fl >= 8
    ensures Pow2(fl - 4) == 2 * Pow2(fl - 5)
    ensures 32 * Pow2(fl - 4) == 64 * Pow2(fl - 5)
    ensures 33 * Pow2(fl - 4) > 65 * Pow2(fl - 5)
  {
  }

  /** Good fit is sound: every block in a list at or above the one where the search for a size
      starts is at least that large. Sizes are multiples of 8, as adjust_request_size makes them. */
  lemma SearchSound(size: nat, block: nat)
    requires size % 8 == 0 && SearchClass(size) <= ClassOf(block)
    ensures size <= block
  {
    hide Pow2, Fls;
    ClassAtLeast(block, SearchClass(size));
    if size >= SMALL_BLOCK_SIZE {
      FlsRange(size);
      SearchMin(size, Fls(size));
    } else {
      SearchSmall(size);
      SmallBounds(size);
    }
  }

  /** Good fit is nearly complete: a block with a 32nd to spare is in a list that the search covers. */
  lemma SearchComplete(size: nat, block: nat)
    requires size + size / 32 <= block
    ensures SearchClass(size) <= ClassOf(block)
  {
    hide Pow2, Fls, ClassOf, MappingInsert, ClassMin;
    if size >= SMALL_BLOCK_SIZE {
      FlsRange(size);
      var fl := Fls(size);
      SearchMin(size, fl);
      Pow2Add8(fl - 5);
      var step := Pow2(fl - 5);
      assert size >= 32 * step;
      assert size / 32 >= step;
      ClassAtLeast(block, SearchClass(size));
    } else {
      ClassMonotone(size, block);
      assert SearchClass(size) == ClassOf(size) by { SearchSmall(size); }
    }
  }

  lemma SearchSmall(size: nat)
    requires size < SMALL_BLOCK_SIZE
    ensures SearchClass(size) == ClassOf(size)
  {
  }

  /** Sizes below 4 GiB, and no others, have a list among the 25 x 32. A pool of exactly
      block_size_max bytes, which tlsf_add_pool admits, is one row past the end. */
  lemma ClassInRange(size: nat)
    ensures ClassOf(size) < CLASSES <==> size < BLOCK_SIZE_MAX
    ensures MappingInsert(size).0 < FL_INDEX_COUNT <==> size < BLOCK_SIZE_MAX
  {
    ClassIndex(size);
    if size >= SMALL_BLOCK_SIZE {
      FlsRange(size);
      Pow2Values();
      if size >= BLOCK_SIZE_MAX && Fls(size) < 32 {
        Pow2Monotone(Fls(size) + 1, 32);
      }
    }
  }

  lemma TooLargeAPool()
    ensures MappingInsert(BLOCK_SIZE_MAX) == (FL_INDEX_COUNT, 0)
  {
    Pow2Values();
    Pow2Add8(27);
    assert Pow2(33) == 2 * Pow2(32);
    FlsUnique(BLOCK_SIZE_MAX, 32);
    DivIs(BLOCK_SIZE_MAX, Pow2(27), 32);
  }

  /** size_t arithmetic wraps here. */
  const SIZE_RANGE := 0x1_0000_0000_0000_0000

  function Quotient(x: nat, a: nat): nat
    requires a > 0
  {
    x / a
  }

  /** Clearing the low bits of x for a power of two a: the last multiple of a at or below x. */
  function RoundDown(x: nat, a: nat): nat
    requires a > 0
  {
    Quotient(x, a) * a
  }

  function AlignUp(x: nat, a: nat): nat
    requires a > 0
  {
    RoundDown((x + a - 1) % SIZE_RANGE, a)
  }

  function AdjustRequest(size: nat, align: nat): (r: nat)
    requires align > 0
    ensures r == 0 || BLOCK_SIZE_MIN <= r < BLOCK_SIZE_MAX
  {
    if size == 0 then 0 else
      var aligned := AlignUp(size, align);
      if aligned < BLOCK_SIZE_MAX then (if aligned > BLOCK_SIZE_MIN then aligned else BLOCK_SIZE_MIN) else 0
  }

  predicate Multiple(x: nat, a: nat)
    requires a > 0
  {
    x % a == 0
  }

  lemma RoundedDown(x: nat, a: nat)
    requires a > 0
    ensures RoundDown(x, a) <= x < RoundDown(x, a) + a
    ensures Multiple(RoundDown(x, a), a)
  {
    QuotientBounds(x, a);
    hide Quotient, Multiple;
    var q := Quotient(x, a);
    MultipleOf(q, a);
    assert (q + 1) * a == q * a + a;
  }

  lemma QuotientBounds(x: nat, a: nat)
    requires a > 0
    ensures Quotient(x, a) * a <= x < (Quotient(x, a) + 1) * a
  {
    DivSplit(x, a);
  }

  lemma MultipleOf(q: nat, a: nat)
    requires a > 0
    ensures Multiple(q * a, a)
  {
    DivIs(q * a, a, q) by { assert (q + 1) * a == q * a + a; }
    DivSplit(q * a, a);
  }

  /** The adjusted size serves the request exactly when rounding up does not wrap around:
      a request within 8 bytes of 2^64 is answered with the minimum block of 24 bytes. */
  lemma AdjustServes(size: nat)
    requires size < SIZE_RANGE
    ensures AdjustRequest(size, 8) % 8 == 0
    ensures AdjustRequest(size, 8) == 0 || size <= AdjustRequest(size, 8) <==> size <= SIZE_RANGE - 8
    ensures size > SIZE_RANGE - 8 ==> AdjustRequest(size, 8) == BLOCK_SIZE_MIN
  {
    RoundedDown((size + 7) % SIZE_RANGE, 8);
    if size > SIZE_RANGE - 8 {
      assert (size + 7) % SIZE_RANGE == size + 7 - SIZE_RANGE;
    }
  }

  /** A request yields a usable size exactly when it is neither zero nor too large. */
  lemma AdjustPositive(size: nat)
    requires size < SIZE_RANGE
    ensures AdjustRequest(size, 8) == 0 <==> size == 0 || BLOCK_SIZE_MAX - 8 < size <= SIZE_RANGE - 8
  {
    RoundedDown((size + 7) % SIZE_RANGE, 8);
    if size > SIZE_RANGE - 8 {
      assert (size + 7) % SIZE_RANGE == size + 7 - SIZE_RANGE;
    }
  }

  lemma {:induction false} Pow2Multiple(k: nat, j: nat)
    requires j <= k
    ensures Multiple(Pow2(k), Pow2(j))
    decreases k
  {
    if j < k {
      Pow2Multiple(k - 1, j);
      var q := Pow2(k - 1) / Pow2(j);
      DivSplit(Pow2(k - 1), Pow2(j));
      assert Pow2(k) == 2 * q * Pow2(j);
      MultipleOf(2 * q, Pow2(j));
    } else {
      MultipleOf(1, Pow2(j));
    }
  }

  lemma MultipleOfMultiple(x: nat, a: nat, b: nat)
    requires a > 0 && b > 0 && Multiple(x, a) && Multiple(a, b)
    ensures Multiple(x, b)
  {
    var q, r := x / a, a / b;
    DivSplit(x, a);
    DivSplit(a, b);
    assert x == q * (r * b) == (q * r) * b;
    MultipleOf(q * r, b);
  }

  /** tlsf_memalign's larger request: enough for the block, the alignment and a leading gap. It
      fails to be so only for the alignment 2^63, where rounding up wraps around. */
  lemma GapRequest(adjust: nat, k: nat)
    requires BLOCK_SIZE_MIN <= adjust < BLOCK_SIZE_MAX && 4 <= k <= 63
    ensures var r := AdjustRequest(adjust + Pow2(k) + 32, Pow2(k));
      && r % 8 == 0
      && (r == 0 || r >= adjust + Pow2(k) + 32 <==> k < 63)
      && (k == 63 ==> r == BLOCK_SIZE_MIN)
  {
    hide Pow2, RoundDown, AdjustRequest, Multiple;
    var a := Pow2(k);
    Pow2Multiple(k, 3);
    Pow2Values();
    Pow2Top();
    AdjustMultiple(adjust + a + 32, a);
    if k < 63 {
      Pow2Monotone(k, 62);
      AdjustNoWrap(adjust + a + 32, a);
    } else {
      AdjustWrap(adjust);
    }
  }

  lemma AdjustNoWrap(size: nat, a: nat)
    requires 0 < size && 0 < a && size + a <= SIZE_RANGE
    ensures AdjustRequest(size, a) == 0 || AdjustRequest(size, a) >= size
  {
    hide RoundDown;
    assert (size + a - 1) % SIZE_RANGE == size + a - 1;
    RoundedDown(size + a - 1, a);
  }

  lemma AdjustWrap(adjust: nat)
    requires adjust < BLOCK_SIZE_MAX
    ensures AdjustRequest(adjust + 0x8000_0000_0000_0000 + 32, 0x8000_0000_0000_0000) == BLOCK_SIZE_MIN
  {
    var a := 0x8000_0000_0000_0000;
    assert (adjust + a + 32 + a - 1) % SIZE_RANGE == adjust + 31;
    RoundedToZero(adjust + 31, a);
  }

  lemma RoundedToZero(y: nat, a: nat)
    requires y < a
    ensures RoundDown(y, a) == 0
  {
    DivIs(y, a, 0);
  }

  lemma AdjustMultiple(size: nat, a: nat)
    requires a > 0 && Multiple(a, 8)
    ensures AdjustRequest(size, a) % 8 == 0
  {
    hide RoundDown;
    var y := (size + a - 1) % SIZE_RANGE;
    RoundedDown(y, a);
    MultipleOfMultiple(RoundDown(y, a), a, 8);
  }

  lemma Pow2Top()
    ensures Pow2(62) == 0x4000_0000_0000_0000 && Pow2(63) == 0x8000_0000_0000_0000
  {
    Pow2Values();
    Pow2Add8(31);
    Pow2Add8(39);
    Pow2Add8(47);
    assert Pow2(56) == 2 * Pow2(55);
    assert Pow2(57) == 4 * Pow2(55);
    assert Pow2(58) == 8 * Pow2(55);
    Pow2Add8(57);
  }

  /** align_ptr; addresses do not come near 2^64. */
  function AlignPtr(p: nat, a: nat): nat
    requires a > 0
  {
    RoundDown(p + a - 1, a)
  }

  /** The address tlsf_memalign picks in a block whose payload starts at p. */
  function AlignedStart(p: nat, a: nat): nat
    requires a > 0
  {
    var aligned := AlignPtr(p, a);
    var gap := aligned - p;
    if gap != 0 && gap < 32 then
      var remain := 32 - gap;
      AlignPtr(aligned + (if remain > a then remain else a), a)
    else aligned
  }

  lemma AlignedPtr(p: nat, a: nat)
    requires a > 0
    ensures p <= AlignPtr(p, a) < p + a && Multiple(AlignPtr(p, a), a)
    ensures Multiple(p, a) ==> AlignPtr(p, a) == p
  {
    RoundedDown(p + a - 1, a);
    if p % a == 0 {
      DivSplit(p, a);
      assert (p / a + 1) * a == p / a * a + a;
      DivIs(p + a - 1, a, p / a);
    }
  }

  /** The gap before the aligned address is nothing or room for a free block of its own, and at
      most 24 bytes more than the alignment. */
  lemma GapBounds(p: nat, k: nat)
    requires p % 8 == 0 && k >= 4
    ensures var a := Pow2(k); var q := AlignedStart(p, a);
      && Multiple(q, a) && q >= p && (q - p) % 8 == 0
      && (q == p || 32 <= q - p <= a + 24)
  {
    hide Pow2, Multiple, AlignedStart;
    var a := Pow2(k);
    Pow2Monotone(4, k);
    Pow2Multiple(k, 3);
    Pow2Values();
    Pow2Is16();
    if a < 32 { SmallAlign(k); }
    IsMultiple8(p);
    GapBoundsFor(p, a);
    IsMultiple8(AlignedStart(p, a) - p);
  }

  lemma IsMultiple8(x: nat)
    ensures Multiple(x, 8) <==> x % 8 == 0
  {
  }

  lemma GapBoundsFor(p: nat, a: nat)
    requires Multiple(p, 8) && (a == 16 || 32 <= a) && Multiple(a, 8)
    ensures var q := AlignedStart(p, a);
      && Multiple(q, a) && q >= p && Multiple(q - p, 8)
      && (q == p || 32 <= q - p <= a + 24)
  {
    hide AlignPtr, Multiple;
    AlignedPtr(p, a);
    var aligned := AlignPtr(p, a);
    AlignedBy8(p, a);
    GapBy8(p, aligned);
    var gap := aligned - p;
    if gap != 0 && gap < 32 {
      if a == 16 {
        GapAfter16(aligned);
      } else {
        AddMultiple(aligned, a);
        AlignedPtr(aligned + a, a);
      }
      AlignedBy8(aligned + (if 32 - gap > a then 32 - gap else a), a);
      GapBy8(p, AlignedStart(p, a));
    }
  }

  lemma GapBy8(p: nat, q: nat)
    requires Multiple(p, 8) && Multiple(q, 8) && p <= q
    ensures Multiple(q - p, 8) && (q != p && q < p + 16 ==> q == p + 8)
  {
  }

  lemma GapAfter16(aligned: nat)
    requires Multiple(aligned, 16)
    ensures AlignPtr(aligned + 24, 16) == aligned + 32
    ensures Multiple(aligned + 32, 16)
  {
    hide AlignPtr;
    AlignedPtr(aligned + 24, 16);
    NextBut16(aligned, AlignPtr(aligned + 24, 16));
  }

  lemma NextBut16(x: nat, y: nat)
    requires Multiple(x, 16) && Multiple(y, 16) && x + 24 <= y < x + 40
    ensures y == x + 32
  {
  }

  lemma AlignedBy8(p: nat, a: nat)
    requires a > 0 && Multiple(a, 8)
    ensures Multiple(AlignPtr(p, a), 8)
  {
    AlignedPtr(p, a);
    hide AlignPtr;
    MultipleOfMultiple(AlignPtr(p, a), a, 8);
  }

  lemma Pow2Is16()
    ensures Pow2(4) == 16
  {
    assert Pow2(1) == 2;
  }

  lemma SmallAlign(k: nat)
    requires k >= 4 && Pow2(k) < 32
    ensures Pow2(k) == 16
  {
    Pow2Is16();
    assert Pow2(5) == 2 * Pow2(4);
    if k >= 5 { Pow2Monotone(5, k); }
  }

  lemma AddMultiple(x: nat, a: nat)
    requires a > 0 && Multiple(x, a)
    ensures Multiple(x + a, a)
  {
    DivSplit(x, a);
    assert (x / a + 1) * a == x / a * a + a;
    MultipleOf(x / a + 1, a);
  }
}
