/** The invariant of the TLSF allocator and how each of its elementary steps keeps it. */
module TlsfInvariant {
  import opened TlsfMapping
  import opened TlsfBits
  import opened TlsfLists
  import opened TlsfBlocks
  import opened TlsfMemory

  ghost predicate AgreeOk(S: Blocks, F: set<nat>, L: map<nat, Link>, b: nat)
    requires b in L
  {
    b in S && b in F && 3 <= S[b].words < MAX_WORDS && L[b].cls == ClassOf(8 * S[b].words)
  }

  /** Listed blocks are free, and each is in the list of its size. */
  ghost predicate Agree(S: Blocks, F: set<nat>, L: map<nat, Link>) {
    forall b {:trigger AgreeOk(S, F, L, b)} | b in L :: AgreeOk(S, F, L, b)
  }

  /** No two listed blocks are adjacent. */
  ghost predicate Coalesced(S: Blocks, L: map<nat, Link>) {
    forall b {:trigger b in L} | b in L && b in S :: Next(S, b) !in L
  }

  lemma AgreeFacts(S: Blocks, F: set<nat>, L: map<nat, Link>)
    requires Agree(S, F, L)
    ensures forall x {:trigger x in L} | x in L :: x in S && S[x].words >= 3 && x in F
    ensures L.Keys <= S.Keys
  {
    forall x | x in L ensures x in S && S[x].words >= 3 && x in F {
      assert AgreeOk(S, F, L, x);
    }
  }

  lemma TileFacts(S: Blocks, pools: map<nat, nat>, top: nat)
    requires Tiling(S, pools, top)
    ensures forall x {:trigger x in S} | x in S :: x >= NULL_BLOCK + 3
    ensures forall x {:trigger x in S} | x in S && S[x].words > 0 :: S[x].words >= 3
    ensures Separate(S)
  {
    forall x | x in S ensures x >= NULL_BLOCK + 3 && (S[x].words > 0 ==> S[x].words >= 3) {
      assert TileOk(S, pools, top, x);
    }
  }

  /** The size word of b, read and decoded. */
  lemma SizeRead(m: seq<nat>, S: Blocks, F: set<nat>, Q: set<nat>, b: nat)
    requires Headers(m, S, F, Q) && b in S
    ensures b + 1 < |m|
    ensures SizeOf(m[b + 1]) == S[b].words
    ensures FreeBit(m[b + 1]) <==> b in F
    ensures PrevFreeBit(m[b + 1]) <==> b in Q
  {
    hide Header, SizeOf, FreeBit, PrevFreeBit;
    assert HeaderOk(m, S, F, Q, b);
    HeaderParts(S[b].words, b in F, b in Q);
  }

  lemma BlockFits(S: Blocks, pools: map<nat, nat>, top: nat, b: nat)
    requires Tiling(S, pools, top) && b in S
    ensures Next(S, b) < top && S[b].words < MAX_WORDS
    ensures S[b].words > 0 ==> S[b].words >= 3 && Next(S, b) in S && S[Next(S, b)].pred == b
    ensures S[b].words > 0 ==> Next(S, b) >= b + 4
    ensures b >= NULL_BLOCK + 3
  {
    assert TileOk(S, pools, top, b);
    assert PoolOk(S, pools, S[b].pool);
    if S[b].words > 0 {
      assert TileOk(S, pools, top, Next(S, b));
    }
  }

  lemma InsertLinks(m: seq<nat>, S: Blocks, L: map<nat, Link>, heads: seq<nat>, clock: nat, b: nat, c: nat)
    requires Separate(S) && LinksStored(m, L)
    requires forall x {:trigger x in L} | x in L :: x in S && S[x].words >= 3
    requires b in S && S[b].words >= 3 && b !in L && c < |heads| && b + 3 < |m| && heads[c] + 3 < |m|
    requires heads[c] == NULL_BLOCK || heads[c] in L
    requires b >= NULL_BLOCK + 3 && forall x {:trigger x in S} | x in S :: x >= NULL_BLOCK + 3
    ensures LinksStored(m[b + 2 := heads[c]][b + 3 := NULL_BLOCK][heads[c] + 3 := b], Inserted(L, heads, clock, b, c))
  {
    var cur := heads[c];
    var L2 := Inserted(L, heads, clock, b, c);
    var m2 := m[b + 2 := cur][b + 3 := NULL_BLOCK][cur + 3 := b];
    forall x | x in L2 ensures LinkStored(m2, L2, x) {
      if x != b {
        assert LinkStored(m, L, x);
        assert SepOk(S, b, x);
        assert SepOk(S, x, b);
      }
      if cur in L {
        assert SepOk(S, cur, x);
        assert SepOk(S, x, cur);
      }
    }
  }

  lemma RemoveLinks(m: seq<nat>, S: Blocks, L: map<nat, Link>, heads: seq<nat>, clock: nat, b: nat)
    requires Separate(S) && LinksStored(m, L) && Lists(L, heads, clock) && b in L
    requires forall x {:trigger x in L} | x in L :: x in S && S[x].words >= 3
    requires forall x {:trigger x in S} | x in S :: x >= NULL_BLOCK + 3
    requires L[b].next + 3 < |m| && L[b].prev + 3 < |m|
    ensures LinksStored(m[L[b].next + 3 := L[b].prev][L[b].prev + 2 := L[b].next], Removed(L, b))
  {
    var n, p := L[b].next, L[b].prev;
    var L2 := Removed(L, b);
    var m2 := m[n + 3 := p][p + 2 := n];
    assert LinkOk(L, heads, clock, b);
    forall x | x in L2 ensures LinkStored(m2, L2, x) {
      if n in L { LinksApart(S, n, x); }
      if p in L { LinksApart(S, p, x); }
      assert LinkStored(m, L, x);
    }
  }

  /** The link words of two blocks do not overlap. */
  lemma LinksApart(S: Blocks, x: nat, y: nat)
    requires Separate(S) && x in S && y in S && S[x].words >= 3 && S[y].words >= 3
    ensures x == y || x + 3 < y || y + 3 < x
  {
    if x != y {
      assert SepOk(S, x, y);
      assert SepOk(S, y, x);
    }
  }

  lemma AgreeInserted(S: Blocks, F: set<nat>, L: map<nat, Link>, heads: seq<nat>, clock: nat, b: nat, c: nat)
    requires Agree(S, F, L) && b in S && b in F && 3 <= S[b].words < MAX_WORDS && c == ClassOf(8 * S[b].words)
    requires c < |heads|
    ensures Agree(S, F, Inserted(L, heads, clock, b, c))
  {
    var L2 := Inserted(L, heads, clock, b, c);
    forall x | x in L2 ensures AgreeOk(S, F, L2, x) {
      if x != b { assert AgreeOk(S, F, L, x); }
    }
  }

  lemma AgreeRemoved(S: Blocks, F: set<nat>, L: map<nat, Link>, b: nat)
    requires Agree(S, F, L) && b in L
    ensures Agree(S, F, Removed(L, b))
  {
    var L2 := Removed(L, b);
    forall x | x in L2 ensures AgreeOk(S, F, L2, x) {
      assert AgreeOk(S, F, L, x);
    }
  }

  /** The write current->prev_free = block and its like: into a listed block or the null block. */
  lemma ListWrite(m: seq<nat>, S: Blocks, F: set<nat>, Q: set<nat>, L: map<nat, Link>, pools: map<nat, nat>, b: nat, k: nat, v: nat)
    requires Tiling(S, pools, |m|) && Headers(m, S, F, Q) && Agree(S, F, L) && NULL_BLOCK + 3 < |m|
    requires b == NULL_BLOCK || (b in L && 2 <= k)
    requires k <= 3
    ensures b + k < |m|
    ensures Headers(m[b + k := v], S, F, Q) && OnlyLinksChanged(m, m[b + k := v], S, F)
  {
    AgreeFacts(S, F, L);
    TileFacts(S, pools, |m|);
    hide Headers, Tiling, Agree, PrevSame, PayloadSame;
    if b in L {
      BlockFits(S, pools, |m|, b);
      LinkWrite(m, S, F, Q, b, b + k, v);
    } else {
      NullUntouched(m, S, F, Q, k, v);
    }
  }

  lemma NullUntouched(m: seq<nat>, S: Blocks, F: set<nat>, Q: set<nat>, k: nat, v: nat)
    requires k <= 3 && NULL_BLOCK + 3 < |m| && Headers(m, S, F, Q)
    requires forall x {:trigger x in S} | x in S :: x >= NULL_BLOCK + 3
    ensures Headers(m[NULL_BLOCK + k := v], S, F, Q) && OnlyLinksChanged(m, m[NULL_BLOCK + k := v], S, F)
  {
    var m2 := m[NULL_BLOCK + k := v];
    forall c | c in S ensures HeaderOk(m2, S, F, Q, c) && OnlyLinksChangedAt(m, m2, S, F, c) {
      assert HeaderOk(m, S, F, Q, c);
    }
  }

  /** The three writes of insert_free_block. */
  lemma InsertMemory(m: seq<nat>, S: Blocks, F: set<nat>, Q: set<nat>, L: map<nat, Link>, pools: map<nat, nat>, odd: set<nat>, b: nat, cur: nat)
    requires Tiling(S, pools, |m|) && Headers(m, S, F, Q) && Agree(S, F, L) && NULL_BLOCK + 3 < |m|
    requires Flags(m, S, F, Q, odd) && b in S && b in F && S[b].words > 0 && (cur == NULL_BLOCK || cur in L)
    ensures b + 3 < |m| && cur + 3 < |m|
    ensures var m2 := m[b + 2 := cur][b + 3 := NULL_BLOCK][cur + 3 := b];
      Headers(m2, S, F, Q) && OnlyLinksChanged(m, m2, S, F) && Flags(m2, S, F, Q, odd)
  {
    BlockFits(S, pools, |m|, b);
    TileFacts(S, pools, |m|);
    hide Tiling, Headers, Flags, Agree, OnlyLinksChanged, Separate;
    LinkWrite(m, S, F, Q, b, b + 2, cur);
    var m1 := m[b + 2 := cur];
    LinkWrite(m1, S, F, Q, b, b + 3, NULL_BLOCK);
    var m2 := m1[b + 3 := NULL_BLOCK];
    ListWrite(m2, S, F, Q, L, pools, cur, 3, b);
    OnlyLinksTrans(m, m1, m2, S, F);
    OnlyLinksTrans(m, m2, m2[cur + 3 := b], S, F);
    FlagsUntouched(m, m2[cur + 3 := b], S, F, Q, odd);
  }

  ghost predicate PhysicalOk(m: seq<nat>, S: Blocks, F: set<nat>, Q: set<nat>, pools: map<nat, nat>, odd: set<nat>) {
    && NULL_BLOCK + 3 < |m| && Tiling(S, pools, |m|) && Headers(m, S, F, Q)
    && Flags(m, S, F, Q, odd) && Ends(S, F, Q)
  }

  ghost predicate ListedOk(m: seq<nat>, heads: seq<nat>, sl: seq<word>, fl: word, S: Blocks, F: set<nat>, L: map<nat, Link>, clock: nat) {
    && |heads| == CLASSES && Lists(L, heads, clock) && Bitmaps(heads, NULL_BLOCK, sl, fl)
    && LinksStored(m, L) && Agree(S, F, L) && Coalesced(S, L)
  }

  /** insert_free_block keeps everything. */
  lemma InsertPhysical(m: seq<nat>, S: Blocks, F: set<nat>, Q: set<nat>, L: map<nat, Link>, pools: map<nat, nat>, odd: set<nat>, b: nat, cur: nat)
    requires PhysicalOk(m, S, F, Q, pools, odd) && Agree(S, F, L)
    requires b in S && b in F && S[b].words > 0 && (cur == NULL_BLOCK || cur in L)
    ensures b + 3 < |m| && cur + 3 < |m|
    ensures var m2 := m[b + 2 := cur][b + 3 := NULL_BLOCK][cur + 3 := b];
      PhysicalOk(m2, S, F, Q, pools, odd) && OnlyLinksChanged(m, m2, S, F)
  {
    hide Tiling, Headers, Flags, Ends, Agree, OnlyLinksChanged;
    InsertMemory(m, S, F, Q, L, pools, odd, b, cur);
  }

  lemma InsertListed(m: seq<nat>, heads: seq<nat>, sl: seq<word>, fl: word, S: Blocks, F: set<nat>, L: map<nat, Link>, clock: nat,
      pools: map<nat, nat>, b: nat, i: nat, j: nat)
    requires ListedOk(m, heads, sl, fl, S, F, L, clock) && Tiling(S, pools, |m|) && NULL_BLOCK + 3 < |m|
    requires b in S && b in F && b !in L && S[b].words > 0 && Next(S, b) !in L && S[b].pred !in L
    requires i < 25 && j < 32 && 32 * i + j == ClassOf(8 * S[b].words)
    ensures b + 3 < |m| && |sl| == 25 && 32 * i + j < |heads|
    ensures var c := 32 * i + j; var cur := heads[c];
      && cur + 3 < |m| && (cur == NULL_BLOCK || cur in L)
      && ListedOk(m[b + 2 := cur][b + 3 := NULL_BLOCK][cur + 3 := b], heads[c := b],
          sl[i := SetBit(sl[i], j)], SetBit(fl, i), S, F, Inserted(L, heads, clock, b, c), clock + 1)
      && Inserted(L, heads, clock, b, c).Keys == L.Keys + {b}
  {
    hide Tiling, Lists, Bitmaps, LinksStored, Agree, Coalesced, ClassOf, Inserted, Separate, SetBit;
    ListedShape(m, heads, sl, fl, S, F, L, clock);
    AgreeFacts(S, F, L);
    TileFacts(S, pools, |m|);
    BlockFits(S, pools, |m|, b);
    BitmapsAfterInsert(heads, NULL_BLOCK, sl, fl, i, j, b);
    var c := 32 * i + j;
    var cur := heads[c];
    HeadListed(L, heads, clock, c);
    if cur in L { BlockFits(S, pools, |m|, cur); }
    InsertLinks(m, S, L, heads, clock, b, c);
    AgreeInserted(S, F, L, heads, clock, b, c);
    InsertKeeps(L, heads, clock, b, c);
    CoalescedInserted(S, pools, |m|, L, b, Inserted(L, heads, clock, b, c));
  }

  /** The two writes of remove_free_block. */
  lemma RemovePhysical(m: seq<nat>, S: Blocks, F: set<nat>, Q: set<nat>, L: map<nat, Link>, pools: map<nat, nat>, odd: set<nat>, n: nat, p: nat)
    requires PhysicalOk(m, S, F, Q, pools, odd) && Agree(S, F, L)
    requires (n == NULL_BLOCK || n in L) && (p == NULL_BLOCK || p in L)
    ensures n + 3 < |m| && p + 2 < |m|
    ensures var m2 := m[n + 3 := p][p + 2 := n];
      PhysicalOk(m2, S, F, Q, pools, odd) && OnlyLinksChanged(m, m2, S, F)
  {
    hide Tiling, Headers, Flags, Ends, Agree, OnlyLinksChanged;
    ListWrite(m, S, F, Q, L, pools, n, 3, p);
    var m1 := m[n + 3 := p];
    ListWrite(m1, S, F, Q, L, pools, p, 2, n);
    var m2 := m1[p + 2 := n];
    OnlyLinksTrans(m, m1, m2, S, F);
    FlagsUntouched(m, m2, S, F, Q, odd);
  }

  lemma Neighbours(L: map<nat, Link>, heads: seq<nat>, clock: nat, b: nat)
    requires Lists(L, heads, clock) && b in L
    ensures L[b].cls < |heads| && b != NULL_BLOCK
    ensures L[b].next == NULL_BLOCK || L[b].next in L
    ensures L[b].prev == NULL_BLOCK || L[b].prev in L
  {
    assert LinkOk(L, heads, clock, b);
  }

  lemma RemoveListed(m: seq<nat>, heads: seq<nat>, sl: seq<word>, fl: word, S: Blocks, F: set<nat>, L: map<nat, Link>, clock: nat,
      pools: map<nat, nat>, b: nat, i: nat, j: nat) returns (sl2: seq<word>, fl2: word)
    requires ListedOk(m, heads, sl, fl, S, F, L, clock) && Tiling(S, pools, |m|) && NULL_BLOCK + 3 < |m|
    requires b in L && i < 25 && j < 32 && 32 * i + j == L[b].cls
    ensures L[b].cls < |heads| && |sl| == 25
    ensures var n, p := L[b].next, L[b].prev;
      && b + 3 < |m| && m[b + 2] == n && m[b + 3] == p
      && (n == NULL_BLOCK || n in L) && (p == NULL_BLOCK || p in L)
      && n + 3 < |m| && p + 3 < |m|
      && sl2 == (if heads[L[b].cls] == b && n == NULL_BLOCK then sl[i := ClearBit(sl[i], j)] else sl)
      && fl2 == (if heads[L[b].cls] == b && n == NULL_BLOCK && sl2[i] == 0 then ClearBit(fl, i) else fl)
      && ListedOk(m[n + 3 := p][p + 2 := n], HeadsRemoved(L, heads, b), sl2, fl2, S, F, Removed(L, b), clock)
      && Removed(L, b).Keys == L.Keys - {b}
  {
    AgreeFacts(S, F, L);
    TileFacts(S, pools, |m|);
    Neighbours(L, heads, clock, b);
    sl2, fl2 := sl, fl;
    if heads[L[b].cls] == b {
      sl2, fl2 := BitmapsAfterRemove(heads, NULL_BLOCK, sl, fl, i, j, L[b].next);
    }
    assert LinkStored(m, L, b);
    hide Tiling, Lists, Bitmaps, LinksStored, Agree, Coalesced, Removed, Separate, ClearBit;
    if L[b].next in L { BlockFits(S, pools, |m|, L[b].next); }
    if L[b].prev in L { BlockFits(S, pools, |m|, L[b].prev); }
    RemoveLinks(m, S, L, heads, clock, b);
    AgreeRemoved(S, F, L, b);
    RemoveKeeps(L, heads, clock, b);
    CoalescedRemoved(S, L, Removed(L, b), b);
  }

  lemma CoalescedRemoved(S: Blocks, L: map<nat, Link>, L2: map<nat, Link>, b: nat)
    requires Coalesced(S, L) && L2.Keys == L.Keys - {b}
    ensures Coalesced(S, L2)
  {
    forall x | x in L2 && x in S ensures Next(S, x) !in L2 {
      assert x in L;
    }
  }

  /** A size word is rewritten. The free bit of b may change while b is in transit, its prev-free
      bit while the block before it is. */
  ghost predicate HeaderChange(S: Blocks, F: set<nat>, Q: set<nat>, F2: set<nat>, Q2: set<nat>, odd: set<nat>, b: nat) {
    && b in S && F2 - {b} == F - {b} && Q2 - {b} == Q - {b}
    && ((b in F2) != (b in F) ==> b in odd && S[b].words > 0)
    && ((b in Q2) != (b in Q) ==> S[b].pred in odd && S[b].pred != 0)
  }

  lemma HeaderStep(m: seq<nat>, S: Blocks, F: set<nat>, Q: set<nat>, F2: set<nat>, Q2: set<nat>, pools: map<nat, nat>, odd: set<nat>, b: nat, v: nat)
    requires PhysicalOk(m, S, F, Q, pools, odd) && HeaderChange(S, F, Q, F2, Q2, odd, b)
    requires v == Header(S[b].words, b in F2, b in Q2)
    ensures b + 1 < |m| && PhysicalOk(m[b + 1 := v], S, F2, Q2, pools, odd)
  {
    BlockFits(S, pools, |m|, b);
    hide Header;
    HeaderWrite(m, S, F, Q, F2, Q2, b, v);
    TileFacts(S, pools, |m|);
    hide Headers, Separate;
    var m2 := m[b + 1 := v];
    forall c | c in S ensures EndOk(S, F2, Q2, c) {
      assert EndOk(S, F, Q, c);
      InChanged(F, F2, b, c);
      InChanged(Q, Q2, b, c);
    }
    forall c | c in S && c !in odd ensures FlagOk(m2, S, F2, Q2, c) {
      assert FlagOk(m, S, F, Q, c);
      HeaderWriteOthers(m, S, b, v, c);
      InChanged(F, F2, b, c);
      InChanged(Q, Q2, b, Next(S, c));
      BlockFits(S, pools, |m|, c);
    }
    assert F2 <= S.Keys by {
      forall c | c in F2 ensures c in S { InChanged(F, F2, b, c); }
    }
  }

  lemma InChanged(F: set<nat>, F2: set<nat>, b: nat, c: nat)
    requires F2 - {b} == F - {b}
    ensures c != b ==> (c in F2 <==> c in F)
  {
    if c != b { assert c in F2 - {b} <==> c in F2; }
  }

  /** The lists do not see the size words. */
  lemma HeaderStepLists(m: seq<nat>, heads: seq<nat>, sl: seq<word>, fl: word, S: Blocks, F: set<nat>, F2: set<nat>, L: map<nat, Link>, clock: nat, b: nat, v: nat)
    requires ListedOk(m, heads, sl, fl, S, F, L, clock) && Separate(S) && b in S && b + 1 < |m|
    requires L.Keys <= F2
    ensures ListedOk(m[b + 1 := v], heads, sl, fl, S, F2, L, clock)
  {
    hide Lists, Bitmaps;
    AgreeFacts(S, F, L);
    HeaderWriteLinks(m, S, L, b, v);
    AgreeWith(S, F, F2, L);
    hide Agree, LinksStored, Coalesced;
  }

  lemma AgreeWith(S: Blocks, F: set<nat>, F2: set<nat>, L: map<nat, Link>)
    requires Agree(S, F, L) && L.Keys <= F2
    ensures Agree(S, F2, L)
  {
    forall b | b in L ensures AgreeOk(S, F2, L, b) {
      assert AgreeOk(S, F, L, b);
    }
  }

  lemma HeaderStepQuiet(m: seq<nat>, S: Blocks, F: set<nat>, F2: set<nat>, pools: map<nat, nat>, b: nat, v: nat, X: set<nat>)
    requires Tiling(S, pools, |m|) && b in S && b + 1 < |m| && F2 - {b} == F - {b}
    requires F2 == F || b in X
    ensures Quiet(View(m, S, F), View(m[b + 1 := v], S, F2), X)
    ensures PayloadSame(m, m[b + 1 := v], S, b)
  {
    TileFacts(S, pools, |m|);
    forall c | c in S ensures PayloadSame(m, m[b + 1 := v], S, c) {
      HeaderWriteOthers(m, S, b, v, c);
    }
    forall c | UsedIn(S, F, c) && c !in X ensures QuietAt(View(m, S, F), View(m[b + 1 := v], S, F2), c) {
      InChanged(F, F2, b, c);
    }
    forall c | UsedIn(S, F2, c) && c !in X ensures UsedIn(S, F, c) {
      InChanged(F, F2, b, c);
    }
  }

  /** Links a block in transit to the block behind it. */
  lemma LinkStep(m: seq<nat>, S: Blocks, F: set<nat>, Q: set<nat>, pools: map<nat, nat>, odd: set<nat>, b: nat)
    requires PhysicalOk(m, S, F, Q, pools, odd) && b in S && S[b].words > 0 && b in odd
    ensures Next(S, b) < |m| && PhysicalOk(m[Next(S, b) := b], S, F, Q, pools, odd)
    ensures Quiet(View(m, S, F), View(m[Next(S, b) := b], S, F), {b})
  {
    BlockFits(S, pools, |m|, b);
    TileFacts(S, pools, |m|);
    var n := Next(S, b);
    var m2 := m[n := b];
    InnerWrite(m, S, F, Q, b, n, b);
    hide Headers, Separate, Ends, Tiling;
    forall c | c in S && c !in odd ensures FlagOk(m2, S, F, Q, c) {
      assert FlagOk(m, S, F, Q, c);
      InnerWriteOthers(m, S, b, n, b, c);
    }
    forall c | UsedIn(S, F, c) && c != b ensures QuietAt(View(m, S, F), View(m2, S, F), c) {
      InnerWriteOthers(m, S, b, n, b, c);
    }
  }

  lemma LinkStepLists(m: seq<nat>, heads: seq<nat>, sl: seq<word>, fl: word, S: Blocks, F: set<nat>, L: map<nat, Link>, clock: nat,
      pools: map<nat, nat>, b: nat)
    requires ListedOk(m, heads, sl, fl, S, F, L, clock) && Tiling(S, pools, |m|) && b in S && S[b].words > 0
    ensures Next(S, b) < |m| && ListedOk(m[Next(S, b) := b], heads, sl, fl, S, F, L, clock)
  {
    BlockFits(S, pools, |m|, b);
    TileFacts(S, pools, |m|);
    AgreeFacts(S, F, L);
    hide Lists, Bitmaps, Agree, Coalesced, Tiling, Separate;
    InnerWriteLinks(m, S, L, b, Next(S, b), b);
  }

  lemma Settled(m: seq<nat>, S: Blocks, F: set<nat>, Q: set<nat>, pools: map<nat, nat>, odd: set<nat>, b: nat)
    requires PhysicalOk(m, S, F, Q, pools, odd) && (b in S ==> FlagOk(m, S, F, Q, b))
    ensures PhysicalOk(m, S, F, Q, pools, odd - {b})
  {
    hide Tiling, Headers, Ends;
    forall c | c in S && c !in odd - {b} ensures FlagOk(m, S, F, Q, c) {
      assert c !in odd || c == b;
    }
  }

  /** block_absorb, on the size words. */
  lemma AbsorbStep(m: seq<nat>, S: Blocks, F: set<nat>, Q: set<nat>, pools: map<nat, nat>, odd: set<nat>, b: nat, r: nat, v: nat)
    requires PhysicalOk(m, S, F, Q, pools, odd) && CanAbsorb(S, b) && r == Next(S, b)
    requires v == Header(S[b].words + S[r].words + 1, b in F, b in Q)
    ensures b + 1 < |m| && PhysicalOk(m[b + 1 := v], Absorb(S, b), F - {r}, Q - {r}, pools, odd + {b})
  {
    BlockFits(S, pools, |m|, b);
    BlockFits(S, pools, |m|, r);
    AbsorbKeeps(S, pools, |m|, b);
    AbsorbShapes(S, b);
    TileFacts(S, pools, |m|);
    hide Headers, Flags, Ends, Tiling, Header, Absorb;
    AbsorbHeaders(m, S, F, Q, b, r, v);
    AbsorbFlags(m, S, F, Q, pools, odd, b, r, v);
    AbsorbEnds(S, F, Q, b, r);
  }

  lemma AbsorbHeaders(m: seq<nat>, S: Blocks, F: set<nat>, Q: set<nat>, b: nat, r: nat, v: nat)
    requires Headers(m, S, F, Q) && CanAbsorb(S, b) && r == Next(S, b) && b + 1 < |m| && Next(S, r) in S
    requires v == Header(S[b].words + S[r].words + 1, b in F, b in Q)
    ensures Headers(m[b + 1 := v], Absorb(S, b), F - {r}, Q - {r})
  {
    AbsorbShapes(S, b);
    hide Header, Absorb;
    var S2 := Absorb(S, b);
    forall c | c in S2 ensures HeaderOk(m[b + 1 := v], S2, F - {r}, Q - {r}, c) {
      assert HeaderOk(m, S, F, Q, c);
    }
  }

  lemma AbsorbFlags(m: seq<nat>, S: Blocks, F: set<nat>, Q: set<nat>, pools: map<nat, nat>, odd: set<nat>, b: nat, r: nat, v: nat)
    requires Flags(m, S, F, Q, odd) && Tiling(S, pools, |m|) && CanAbsorb(S, b) && r == Next(S, b) && b + 1 < |m| && Next(S, r) in S
    ensures Flags(m[b + 1 := v], Absorb(S, b), F - {r}, Q - {r}, odd + {b})
  {
    AbsorbShapes(S, b);
    TileFacts(S, pools, |m|);
    hide Absorb, Tiling, Separate;
    var S2 := Absorb(S, b);
    forall c | c in S2 && c !in odd + {b} ensures FlagOk(m[b + 1 := v], S2, F - {r}, Q - {r}, c) {
      assert FlagOk(m, S, F, Q, c);
      BlockFits(S, pools, |m|, c);
      BlockFits(S, pools, |m|, b);
      HeaderWriteOthers(m, S, b, v, c);
    }
  }

  lemma AbsorbEnds(S: Blocks, F: set<nat>, Q: set<nat>, b: nat, r: nat)
    requires Ends(S, F, Q) && CanAbsorb(S, b) && r == Next(S, b) && Next(S, r) in S && b > 0
    ensures Ends(Absorb(S, b), F - {r}, Q - {r})
  {
    AbsorbShapes(S, b);
    hide Absorb;
    var S2 := Absorb(S, b);
    forall c | c in S2 ensures EndOk(S2, F - {r}, Q - {r}, c) {
      assert EndOk(S, F, Q, c);
      assert EndOk(S, F, Q, Next(S, r));
      assert c in S;
    }
  }

  lemma AbsorbLists(m: seq<nat>, heads: seq<nat>, sl: seq<word>, fl: word, S: Blocks, F: set<nat>, L: map<nat, Link>, clock: nat,
      b: nat, r: nat)
    requires ListedOk(m, heads, sl, fl, S, F, L, clock) && CanAbsorb(S, b) && r == Next(S, b) && Next(S, r) in S
    requires b !in L && r !in L
    ensures ListedOk(m, heads, sl, fl, Absorb(S, b), F - {r}, L, clock)
  {
    AbsorbShapes(S, b);
    hide Absorb, Lists, Bitmaps, LinksStored, ClassOf;
    var S2 := Absorb(S, b);
    forall x | x in L ensures AgreeOk(S2, F - {r}, L, x) {
      assert AgreeOk(S, F, L, x);
    }
    forall x | x in L && x in S2 ensures Next(S2, x) !in L {
      assert Next(S, x) !in L;
    }
  }

  lemma AbsorbQuiet(m: seq<nat>, S: Blocks, F: set<nat>, pools: map<nat, nat>, b: nat, r: nat, v: nat)
    requires Tiling(S, pools, |m|) && CanAbsorb(S, b) && r == Next(S, b) && Next(S, r) in S && r in F && b + 1 < |m|
    ensures Quiet(View(m, S, F), View(m[b + 1 := v], Absorb(S, b), F - {r}), {b})
    ensures PayloadSame(m, m[b + 1 := v], S, b)
  {
    AbsorbShapes(S, b);
    TileFacts(S, pools, |m|);
    hide Absorb, Tiling, Separate;
    HeaderWriteOthers(m, S, b, v, b);
    forall c | UsedIn(S, F, c) && c !in {b} ensures QuietAt(View(m, S, F), View(m[b + 1 := v], Absorb(S, b), F - {r}), c) {
      HeaderWriteOthers(m, S, b, v, c);
      assert c in Absorb(S, b);
    }
  }

  lemma FlagsAt(m: seq<nat>, S: Blocks, F: set<nat>, Q: set<nat>, odd: set<nat>, b: nat)
    requires Flags(m, S, F, Q, odd) && b in S && b !in odd
    ensures FlagOk(m, S, F, Q, b)
  {
  }

  lemma PayloadBelow(m: seq<nat>, m2: seq<nat>, S: Blocks, b: nat, i: nat, v: nat)
    requires b in S && PayloadSame(m, m2, S, b) && Next(S, b) < i < |m2|
    ensures PayloadSame(m, m2[i := v], S, b)
  {
  }

  /** block_split, on the size words; the new block r keeps whatever flag bits its word had. */
  ghost function Marked(X: set<nat>, r: nat, bit: bool): set<nat> {
    if bit then X + {r} else X
  }

  lemma SplitStep(m: seq<nat>, S: Blocks, F: set<nat>, Q: set<nat>, pools: map<nat, nat>, odd: set<nat>, b: nat, w: nat, r: nat, f: bool, p: bool)
    requires PhysicalOk(m, S, F, Q, pools, odd) && CanSplit(S, b, w) && r == b + 1 + w
    ensures r + 1 < |m| && Next(S, b) in S
    ensures PhysicalOk(m[r + 1 := Header(S[b].words - w - 1, f, p)][b + 1 := Header(w, b in F, b in Q)],
      Split(S, b, w), Marked(F, r, f), Marked(Q - {r}, r, p), pools, odd + {b, r})
  {
    BlockFits(S, pools, |m|, b);
    SplitKeeps(S, pools, |m|, b, w);
    SplitShapes(S, b, w);
    hide Headers, Flags, Ends, Tiling, Header, Split;
    SplitHeaders(m, S, F, Q, b, w, r, f, p);
    SplitFlags(m, S, F, Q, pools, odd, b, w, r, f, p);
    SplitEnds(S, F, Q, b, w, r, f, p);
  }

  lemma SplitHeaders(m: seq<nat>, S: Blocks, F: set<nat>, Q: set<nat>, b: nat, w: nat, r: nat, f: bool, p: bool)
    requires Headers(m, S, F, Q) && Separate(S) && CanSplit(S, b, w) && r == b + 1 + w && r !in S && Next(S, b) in S
    requires r + 1 < |m| && F <= S.Keys
    ensures Headers(m[r + 1 := Header(S[b].words - w - 1, f, p)][b + 1 := Header(w, b in F, b in Q)],
      Split(S, b, w), Marked(F, r, f), Marked(Q - {r}, r, p))
  {
    SplitShapes(S, b, w);
    hide Header, Split;
    var S2 := Split(S, b, w);
    var m2 := m[r + 1 := Header(S[b].words - w - 1, f, p)][b + 1 := Header(w, b in F, b in Q)];
    forall c | c in S2 ensures HeaderOk(m2, S2, Marked(F, r, f), Marked(Q - {r}, r, p), c) {
      if c != r {
        assert HeaderOk(m, S, F, Q, c);
        assert SepOk(S, b, c);
        assert SepOk(S, c, b);
      }
    }
  }

  lemma SplitFlags(m: seq<nat>, S: Blocks, F: set<nat>, Q: set<nat>, pools: map<nat, nat>, odd: set<nat>, b: nat, w: nat, r: nat, f: bool, p: bool)
    requires Flags(m, S, F, Q, odd) && Tiling(S, pools, |m|) && CanSplit(S, b, w) && r == b + 1 + w && r !in S && Next(S, b) in S
    requires r + 1 < |m|
    ensures Flags(m[r + 1 := Header(S[b].words - w - 1, f, p)][b + 1 := Header(w, b in F, b in Q)],
      Split(S, b, w), Marked(F, r, f), Marked(Q - {r}, r, p), odd + {b, r})
  {
    SplitShapes(S, b, w);
    TileFacts(S, pools, |m|);
    hide Header, Split, Tiling, Separate;
    var S2 := Split(S, b, w);
    var m1 := m[r + 1 := Header(S[b].words - w - 1, f, p)];
    var m2 := m1[b + 1 := Header(w, b in F, b in Q)];
    forall c | c in S2 && c !in odd + {b, r} ensures FlagOk(m2, S2, Marked(F, r, f), Marked(Q - {r}, r, p), c) {
      assert FlagOk(m, S, F, Q, c);
      BlockFits(S, pools, |m|, c);
      BlockFits(S, pools, |m|, b);
      InnerWriteOthers(m, S, b, r + 1, Header(S[b].words - w - 1, f, p), c);
      HeaderWriteOthers(m1, S, b, Header(w, b in F, b in Q), c);
    }
  }

  lemma SplitEnds(S: Blocks, F: set<nat>, Q: set<nat>, b: nat, w: nat, r: nat, f: bool, p: bool)
    requires Ends(S, F, Q) && CanSplit(S, b, w) && r == b + 1 + w && r !in S && Next(S, b) in S && b > 0
    ensures Ends(Split(S, b, w), Marked(F, r, f), Marked(Q - {r}, r, p))
  {
    SplitShapes(S, b, w);
    hide Split;
    var S2 := Split(S, b, w);
    forall c | c in S2 ensures EndOk(S2, Marked(F, r, f), Marked(Q - {r}, r, p), c) {
      if c != r {
        assert EndOk(S, F, Q, c);
      }
    }
  }

  lemma SplitLists(m: seq<nat>, heads: seq<nat>, sl: seq<word>, fl: word, S: Blocks, F: set<nat>, L: map<nat, Link>, clock: nat,
      b: nat, w: nat, r: nat, f: bool, u: nat, v: nat)
    requires ListedOk(m, heads, sl, fl, S, F, L, clock) && Separate(S) && CanSplit(S, b, w) && b !in L
    requires r == b + 1 + w && r !in S && Next(S, b) in S && r + 1 < |m|
    ensures ListedOk(m[r + 1 := u][b + 1 := v], heads, sl, fl, Split(S, b, w), Marked(F, r, f), L, clock)
  {
    SplitShapes(S, b, w);
    AgreeFacts(S, F, L);
    hide Split, Lists, Bitmaps, LinksStored, ClassOf, Separate;
    InnerWriteLinks(m, S, L, b, r + 1, u);
    HeaderWriteLinks(m[r + 1 := u], S, L, b, v);
    var S2 := Split(S, b, w);
    forall x | x in L ensures AgreeOk(S2, Marked(F, r, f), L, x) {
      assert AgreeOk(S, F, L, x);
    }
    forall x | x in L && x in S2 ensures Next(S2, x) !in L {
      assert Next(S, x) !in L;
    }
  }

  lemma SplitQuiet(m: seq<nat>, S: Blocks, F: set<nat>, pools: map<nat, nat>, b: nat, w: nat, r: nat, f: bool, u: nat, v: nat)
    requires Tiling(S, pools, |m|) && CanSplit(S, b, w) && r == b + 1 + w && r !in S && Next(S, b) in S && r + 1 < |m|
    ensures Quiet(View(m, S, F), View(m[r + 1 := u][b + 1 := v], Split(S, b, w), Marked(F, r, f)), {b, r})
    ensures PayloadSame(m, m[r + 1 := u][b + 1 := v], Split(S, b, w), b)
  {
    SplitShapes(S, b, w);
    TileFacts(S, pools, |m|);
    hide Split, Tiling, Separate;
    var m1 := m[r + 1 := u];
    var S2 := Split(S, b, w);
    forall c | UsedIn(S, F, c) && c !in {b, r} ensures QuietAt(View(m, S, F), View(m1[b + 1 := v], S2, Marked(F, r, f)), c) {
      InnerWriteOthers(m, S, b, r + 1, u, c);
      HeaderWriteOthers(m1, S, b, v, c);
      assert c in S2;
    }
  }

  lemma SplitEnd(u: View, v: View, w: View, b: nat, r: nat)
    requires Quiet(u, v, {b, r}) && Quiet(v, w, {r}) && r !in u.S && r != b && b in v.S && |v.m| == |u.m|
    requires v.S == w.S && PayloadSame(u.m, v.m, v.S, b) && r in w.F
    ensures Quiet(u, w, {b})
    ensures UsedIn(v.S, v.F, b) ==> PayloadSame(u.m, w.m, w.S, b)
  {
    forall c | UsedIn(u.S, u.F, c) && c !in {b} ensures QuietAt(u, w, c) {
      assert QuietAt(u, v, c);
      assert QuietAt(v, w, c);
    }
    forall c | UsedIn(w.S, w.F, c) && c !in {b} ensures UsedIn(u.S, u.F, c) {
      assert UsedIn(v.S, v.F, c);
    }
    if UsedIn(v.S, v.F, b) {
      assert QuietAt(v, w, b);
    }
  }

  lemma Unsettled(m: seq<nat>, S: Blocks, F: set<nat>, Q: set<nat>, pools: map<nat, nat>, odd: set<nat>, b: nat)
    requires PhysicalOk(m, S, F, Q, pools, odd)
    ensures PhysicalOk(m, S, F, Q, pools, odd + {b})
  {
    hide Tiling, Headers, Ends;
  }


  lemma HeaderGrows(w: nat, w2: nat, f: bool, p: bool)
    ensures Header(w, f, p) + 8 * w2 + 8 == Header(w + w2 + 1, f, p)
  {
  }

  lemma HeaderAt(m: seq<nat>, S: Blocks, F: set<nat>, Q: set<nat>, b: nat)
    requires Headers(m, S, F, Q) && b in S
    ensures b + 1 < |m| && m[b + 1] == Header(S[b].words, b in F, b in Q)
  {
    assert HeaderOk(m, S, F, Q, b);
  }

  lemma TilingSeparate(S: Blocks, pools: map<nat, nat>, top: nat)
    requires Tiling(S, pools, top)
    ensures Separate(S)
  {
  }

  lemma ListedInFree(m: seq<nat>, heads: seq<nat>, sl: seq<word>, fl: word, S: Blocks, F: set<nat>, L: map<nat, Link>, clock: nat)
    requires ListedOk(m, heads, sl, fl, S, F, L, clock)
    ensures L.Keys <= F
  {
    AgreeFacts(S, F, L);
  }

  lemma ListedShape(m: seq<nat>, heads: seq<nat>, sl: seq<word>, fl: word, S: Blocks, F: set<nat>, L: map<nat, Link>, clock: nat)
    requires ListedOk(m, heads, sl, fl, S, F, L, clock)
    ensures |heads| == CLASSES && |sl| == 25
  {
  }

  lemma ListedBitmaps(m: seq<nat>, heads: seq<nat>, sl: seq<word>, fl: word, S: Blocks, F: set<nat>, L: map<nat, Link>, clock: nat)
    requires ListedOk(m, heads, sl, fl, S, F, L, clock)
    ensures |heads| == CLASSES && Bitmaps(heads, NULL_BLOCK, sl, fl)
  {
  }

  lemma AgreeAt(S: Blocks, F: set<nat>, L: map<nat, Link>, b: nat)
    requires Agree(S, F, L) && b in L
    ensures b in S && b in F && 3 <= S[b].words < MAX_WORDS && L[b].cls == ClassOf(8 * S[b].words)
  {
    assert AgreeOk(S, F, L, b);
  }

  lemma ListedAgree(m: seq<nat>, heads: seq<nat>, sl: seq<word>, fl: word, S: Blocks, F: set<nat>, L: map<nat, Link>, clock: nat)
    requires ListedOk(m, heads, sl, fl, S, F, L, clock)
    ensures Agree(S, F, L)
  {
  }

  lemma ClassPosition(size: nat, fl: nat, sl: nat)
    requires (fl, sl) == MappingInsert(size) && size < BLOCK_SIZE_MAX
    ensures fl < 25 && sl < 32 && 32 * fl + sl == ClassOf(size) && ClassOf(size) < CLASSES
  {
    ClassInRange(size);
    hide MappingInsert;
  }

  lemma HeadListed(L: map<nat, Link>, heads: seq<nat>, clock: nat, c: nat)
    requires Lists(L, heads, clock) && c < |heads|
    ensures heads[c] == NULL_BLOCK || heads[c] in L
  {
    assert HeadOk(L, heads, c);
  }

  lemma CoalescedInserted(S: Blocks, pools: map<nat, nat>, top: nat, L: map<nat, Link>, b: nat, L2: map<nat, Link>)
    requires Tiling(S, pools, top) && Coalesced(S, L) && b in S && S[b].words > 0
    requires Next(S, b) !in L && S[b].pred !in L
    requires L2.Keys == L.Keys + {b}
    requires forall x {:trigger x in L} | x in L :: x in S && S[x].words >= 3
    ensures Coalesced(S, L2)
  {
    forall x | x in L2 && x in S ensures Next(S, x) !in L2 {
      assert TileOk(S, pools, top, x);
      assert x in L ==> Next(S, x) !in L;
    }
  }

  /** A new pool: the size words of its block and of its sentinel, and the sentinel's link back. */
  ghost function PoolWritten(m: seq<nat>, b: nat, w: nat): seq<nat>
    requires b + 2 + w < |m|
  {
    m[b + 1 := Header(w, true, false)][b + 1 + w := b][b + 2 + w := Header(0, false, true)]
  }

  lemma PoolPhysical(m: seq<nat>, S: Blocks, F: set<nat>, Q: set<nat>, pools: map<nat, nat>, b: nat, w: nat)
    requires PhysicalOk(m, S, F, Q, pools, {}) && 3 <= w < MAX_WORDS && NULL_BLOCK + 3 <= b
    requires b + 2 + w < |m| && Fresh(S, b, b + 2 + w)
    ensures PhysicalOk(PoolWritten(m, b, w), WithPool(S, b, w), F + {b}, Q - {b} + {b + 1 + w}, pools[b := b + 1 + w], {})
  {
    PoolKeeps(S, pools, |m|, b, w);
    hide Tiling, Headers, Flags, Ends, Header;
    PoolHeaders(m, S, F, Q, b, w);
    PoolFlags(m, S, F, Q, pools, b, w);
    PoolEnds(S, F, Q, b, w);
  }

  lemma PoolHeaders(m: seq<nat>, S: Blocks, F: set<nat>, Q: set<nat>, b: nat, w: nat)
    requires Headers(m, S, F, Q) && F <= S.Keys && w > 0 && b + 2 + w < |m| && Fresh(S, b, b + 2 + w) && b !in S && b + 1 + w !in S
    ensures Headers(PoolWritten(m, b, w), WithPool(S, b, w), F + {b}, Q - {b} + {b + 1 + w})
  {
    hide Header;
    var S2 := WithPool(S, b, w);
    forall c | c in S2 ensures HeaderOk(PoolWritten(m, b, w), S2, F + {b}, Q - {b} + {b + 1 + w}, c) {
      if c in S { assert HeaderOk(m, S, F, Q, c); }
    }
  }

  lemma PoolFlags(m: seq<nat>, S: Blocks, F: set<nat>, Q: set<nat>, pools: map<nat, nat>, b: nat, w: nat)
    requires Flags(m, S, F, Q, {}) && Tiling(S, pools, |m|) && b + 2 + w < |m| && Fresh(S, b, b + 2 + w) && b !in S && b + 1 + w !in S
    ensures Flags(PoolWritten(m, b, w), WithPool(S, b, w), F + {b}, Q - {b} + {b + 1 + w}, {})
  {
    hide Header, Tiling;
    var S2 := WithPool(S, b, w);
    forall c | c in S2 && c !in {} ensures FlagOk(PoolWritten(m, b, w), S2, F + {b}, Q - {b} + {b + 1 + w}, c) {
      if c in S {
        assert FlagOk(m, S, F, Q, c);
        BlockFits(S, pools, |m|, c);
      }
    }
  }

  lemma PoolEnds(S: Blocks, F: set<nat>, Q: set<nat>, b: nat, w: nat)
    requires Ends(S, F, Q) && b !in S && b + 1 + w !in S && w > 0 && b > 0
    ensures Ends(WithPool(S, b, w), F + {b}, Q - {b} + {b + 1 + w})
  {
    var S2 := WithPool(S, b, w);
    forall c | c in S2 ensures EndOk(S2, F + {b}, Q - {b} + {b + 1 + w}, c) {
      if c in S { assert EndOk(S, F, Q, c); }
    }
  }

  lemma PoolLists(m: seq<nat>, heads: seq<nat>, sl: seq<word>, fl: word, S: Blocks, F: set<nat>, L: map<nat, Link>, clock: nat, b: nat, w: nat)
    requires ListedOk(m, heads, sl, fl, S, F, L, clock) && b + 2 + w < |m| && Fresh(S, b, b + 2 + w)
    requires b !in S && b + 1 + w !in S
    ensures ListedOk(PoolWritten(m, b, w), heads, sl, fl, WithPool(S, b, w), F + {b}, L, clock)
  {
    AgreeFacts(S, F, L);
    hide Lists, Bitmaps, Header, ClassOf;
    var S2 := WithPool(S, b, w);
    forall x | x in L ensures AgreeOk(S2, F + {b}, L, x) {
      assert AgreeOk(S, F, L, x);
    }
    forall x | x in L ensures LinkStored(PoolWritten(m, b, w), L, x) {
      assert LinkStored(m, L, x);
      assert x in S;
    }
  }

  lemma PoolQuiet(m: seq<nat>, S: Blocks, F: set<nat>, b: nat, w: nat)
    requires b + 2 + w < |m| && Fresh(S, b, b + 2 + w) && b !in S && b + 1 + w !in S
    ensures Quiet(View(m, S, F), View(PoolWritten(m, b, w), WithPool(S, b, w), F + {b}), {})
  {
    var v2 := View(PoolWritten(m, b, w), WithPool(S, b, w), F + {b});
    forall c | UsedIn(S, F, c) ensures QuietAt(View(m, S, F), v2, c) {
      assert Next(S, c) <= b || b + 2 + w <= c;
    }
  }

  /** tlsf_add_pool lists the block before it writes the sentinel; the order of the writes does not matter. */
  lemma PoolOrder(m: seq<nat>, b: nat, w: nat, h: nat, h2: nat, cur: nat)
    requires w >= 3 && b + 2 + w < |m| && (cur + 3 <= b || b + 2 + w < cur + 3 < |m|)
    ensures m[b + 1 := h][b + 2 := cur][b + 3 := NULL_BLOCK][cur + 3 := b][b + 1 + w := b][b + 2 + w := h2]
      == m[b + 1 := h][b + 1 + w := b][b + 2 + w := h2][b + 2 := cur][b + 3 := NULL_BLOCK][cur + 3 := b]
  {
  }
}
