/** The physical blocks of the TLSF allocator. Memory is a sequence of 8-byte words. The header of
    block b has its size word at b + 1; the word at b (prev_phys_block) belongs to the block before
    it. Block b thus owns the words b + 1 up to Next(b), the address of the block behind it. */
module TlsfBlocks {
  import opened TlsfLists

  /** Bound on pool sizes in words: block_size_max. */
  const MAX_WORDS := 0x2000_0000

  /** A block: payload words (0 for the sentinel at a pool's end), the block before it (0 for a
      pool's first block), and its pool, named by the pool's first block. */
  datatype Shape = Shape(words: nat, pred: nat, pool: nat)

  type Blocks = map<nat, Shape>

  function Next(S: Blocks, b: nat): nat
    requires b in S
  {
    b + 1 + S[b].words
  }

  ghost predicate TileOk(S: Blocks, pools: map<nat, nat>, top: nat, b: nat)
    requires b in S
  {
    && NULL_BLOCK + 3 <= b && Next(S, b) < top
    && InPoolOk(S, pools, b) && NextTileOk(S, b) && PredTileOk(S, b)
  }

  ghost predicate InPoolOk(S: Blocks, pools: map<nat, nat>, b: nat)
    requires b in S
  {
    var p := S[b].pool;
    && p in pools && p <= b <= pools[p]
    && (S[b].words == 0 <==> b == pools[p])
    && (S[b].pred == 0 <==> b == p)
  }

  ghost predicate NextTileOk(S: Blocks, b: nat)
    requires b in S
  {
    S[b].words > 0 ==>
      && 3 <= S[b].words && Next(S, b) in S
      && S[Next(S, b)].pred == b && S[Next(S, b)].pool == S[b].pool
  }

  ghost predicate PredTileOk(S: Blocks, b: nat)
    requires b in S
  {
    S[b].pred != 0 ==> S[b].pred in S && S[S[b].pred].words > 0 && Next(S, S[b].pred) == b
  }

  ghost predicate PoolOk(S: Blocks, pools: map<nat, nat>, p: nat)
    requires p in pools
  {
    && p in S && S[p].pool == p && pools[p] in S && S[pools[p]].pool == p
    && p + 4 <= pools[p] <= p + MAX_WORDS
  }

  ghost predicate SepOk(S: Blocks, b: nat, c: nat)
    requires b in S && c in S
  {
    b < c ==> Next(S, b) <= c
  }

  /** Blocks follow each other without gaps or overlaps from each pool's start to its sentinel. */
  ghost predicate Tiling(S: Blocks, pools: map<nat, nat>, top: nat) {
    && (forall b {:trigger TileOk(S, pools, top, b)} | b in S :: TileOk(S, pools, top, b))
    && (forall p {:trigger PoolOk(S, pools, p)} | p in pools :: PoolOk(S, pools, p))
    && Separate(S)
  }

  ghost predicate Separate(S: Blocks) {
    forall b, c {:trigger SepOk(S, b, c)} | b in S && c in S :: SepOk(S, b, c)
  }

  /** block_split: b keeps w words, the rest becomes a block of its own. */
  function Split(S: Blocks, b: nat, w: nat): Blocks
    requires b in S && Next(S, b) in S && S[b].words >= w + 1
  {
    var r, n := b + 1 + w, Next(S, b);
    S[b := S[b].(words := w)][r := Shape(S[b].words - w - 1, b, S[b].pool)][n := S[n].(pred := r)]
  }

  ghost predicate CanSplit(S: Blocks, b: nat, w: nat) {
    b in S && 3 <= w && w + 4 <= S[b].words && Next(S, b) in S
  }

  lemma SplitKeeps(S: Blocks, pools: map<nat, nat>, top: nat, b: nat, w: nat)
    requires Tiling(S, pools, top) && CanSplit(S, b, w)
    ensures TileOk(S, pools, top, b)
    ensures b + 1 + w !in S && Next(S, b) != b
    ensures Tiling(Split(S, b, w), pools, top)
  {
    hide TileOk, PoolOk, SepOk;
    assert TileOk(S, pools, top, b);
    SplitSetup(S, pools, top, b, w);
    var S2 := Split(S, b, w);
    assert TileOk(S, pools, top, Next(S, b));
    forall x | x in S2 ensures TileOk(S2, pools, top, x) {
      assert x in S ==> TileOk(S, pools, top, x);
      SplitTile(S, pools, top, b, w, x);
    }
    forall p | p in pools ensures PoolOk(S2, pools, p) {
      assert PoolOk(S, pools, p);
      SplitPool(S, pools, top, b, w, p);
    }
    SplitSeparate(S, b, w);
  }

  lemma SplitSetup(S: Blocks, pools: map<nat, nat>, top: nat, b: nat, w: nat)
    requires b in S && Separate(S) && TileOk(S, pools, top, b) && CanSplit(S, b, w)
    ensures b + 1 + w !in S && Next(S, b) in S && Next(S, b) != b
    ensures b + 1 + w < Next(S, b)
  {
    var r := b + 1 + w;
    assert r in S ==> SepOk(S, b, r);
  }

  lemma SplitTile(S: Blocks, pools: map<nat, nat>, top: nat, b: nat, w: nat, x: nat)
    requires b in S && Next(S, b) in S && TileOk(S, pools, top, b) && TileOk(S, pools, top, Next(S, b))
    requires x in S ==> TileOk(S, pools, top, x)
    requires CanSplit(S, b, w) && b + 1 + w !in S && b + 1 + w < Next(S, b)
    requires x in Split(S, b, w)
    ensures TileOk(Split(S, b, w), pools, top, x)
  {
    SplitShapes(S, b, w);
    var S2 := Split(S, b, w);
    if x != b && x != b + 1 + w && x != Next(S, b) {
      assert S2[x] == S[x];
    }
    hide Split;
    assert NextTileOk(S2, x);
    assert PredTileOk(S2, x);
  }

  lemma SplitShapes(S: Blocks, b: nat, w: nat)
    requires CanSplit(S, b, w) && b + 1 + w !in S && Next(S, b) in S
    ensures var S2 := Split(S, b, w); var r, n := b + 1 + w, Next(S, b);
      && S2.Keys == S.Keys + {r}
      && S2[b] == S[b].(words := w) && S2[r] == Shape(S[b].words - w - 1, b, S[b].pool)
      && S2[n] == S[n].(pred := r)
      && (forall x {:trigger S2[x]} | x in S && x != b && x != n :: S2[x] == S[x])
  {
  }

  lemma SplitPool(S: Blocks, pools: map<nat, nat>, top: nat, b: nat, w: nat, p: nat)
    requires p in pools && PoolOk(S, pools, p)
    requires CanSplit(S, b, w) && b + 1 + w !in S && Next(S, b) in S
    ensures PoolOk(Split(S, b, w), pools, p)
  {
  }

  lemma SplitSeparate(S: Blocks, b: nat, w: nat)
    requires Separate(S) && CanSplit(S, b, w) && b + 1 + w !in S && Next(S, b) in S
    ensures Separate(Split(S, b, w))
  {
    var S2 := Split(S, b, w);
    forall x, y | x in S2 && y in S2 ensures SepOk(S2, x, y) {
      var x0 := if x == b + 1 + w then b else x;
      var y0 := if y == b + 1 + w then b else y;
      assert SepOk(S, x0, y0);
      assert SepOk(S, b, y0);
      assert SepOk(S, b, x0);
    }
  }

  /** block_absorb: the block behind b becomes part of b. */
  function Absorb(S: Blocks, b: nat): Blocks
    requires b in S && Next(S, b) in S
  {
    var r := Next(S, b);
    var n := Next(S, r);
    var w := S[b].words + S[r].words + 1;
    var T := (S - {r})[b := S[b].(words := w)];
    if n in T then T[n := T[n].(pred := b)] else T
  }

  ghost predicate CanAbsorb(S: Blocks, b: nat) {
    b in S && S[b].words > 0 && Next(S, b) in S && S[Next(S, b)].words > 0
  }

  lemma AbsorbKeeps(S: Blocks, pools: map<nat, nat>, top: nat, b: nat)
    requires Tiling(S, pools, top) && CanAbsorb(S, b)
    ensures TileOk(S, pools, top, b) && TileOk(S, pools, top, Next(S, b))
    ensures Tiling(Absorb(S, b), pools, top)
    ensures Absorb(S, b).Keys == S.Keys - {Next(S, b)}
  {
    hide TileOk, PoolOk, SepOk;
    assert TileOk(S, pools, top, b);
    assert TileOk(S, pools, top, Next(S, b));
    AbsorbSetup(S, pools, top, b);
    var S2 := Absorb(S, b);
    assert TileOk(S, pools, top, Next(S, Next(S, b)));
    forall x | x in S2 ensures TileOk(S2, pools, top, x) {
      assert TileOk(S, pools, top, x);
      AbsorbTile(S, pools, top, b, x);
    }
    forall p | p in pools ensures PoolOk(S2, pools, p) {
      assert PoolOk(S, pools, p);
      AbsorbPool(S, pools, top, b, p);
    }
    AbsorbSeparate(S, b);
  }

  lemma AbsorbSetup(S: Blocks, pools: map<nat, nat>, top: nat, b: nat)
    requires CanAbsorb(S, b) && TileOk(S, pools, top, b) && TileOk(S, pools, top, Next(S, b))
    ensures var r := Next(S, b); b < r < Next(S, r) && Next(S, r) in S
    ensures Absorb(S, b).Keys == S.Keys - {Next(S, b)}
  {
  }

  lemma AbsorbTile(S: Blocks, pools: map<nat, nat>, top: nat, b: nat, x: nat)
    requires CanAbsorb(S, b) && x in S && x != Next(S, b)
    requires TileOk(S, pools, top, b) && TileOk(S, pools, top, Next(S, b)) && TileOk(S, pools, top, x)
    requires Next(S, Next(S, b)) in S && TileOk(S, pools, top, Next(S, Next(S, b)))
    ensures x in Absorb(S, b) && TileOk(Absorb(S, b), pools, top, x)
  {
    AbsorbShapes(S, b);
    var S2 := Absorb(S, b);
    if x != b && x != Next(S, Next(S, b)) {
      assert S2[x] == S[x];
    }
    hide Absorb;
    assert NextTileOk(S2, x);
    assert PredTileOk(S2, x);
  }

  lemma AbsorbShapes(S: Blocks, b: nat)
    requires CanAbsorb(S, b) && Next(S, Next(S, b)) in S
    ensures var S2 := Absorb(S, b); var r := Next(S, b); var n := Next(S, r);
      && S2.Keys == S.Keys - {r}
      && S2[b] == S[b].(words := S[b].words + S[r].words + 1)
      && S2[n] == S[n].(pred := b)
      && (forall x {:trigger S2[x]} | x in S2 && x != b && x != n :: S2[x] == S[x])
  {
  }

  lemma AbsorbPool(S: Blocks, pools: map<nat, nat>, top: nat, b: nat, p: nat)
    requires p in pools && PoolOk(S, pools, p) && CanAbsorb(S, b)
    requires TileOk(S, pools, top, b) && TileOk(S, pools, top, Next(S, b))
    ensures PoolOk(Absorb(S, b), pools, p)
  {
  }

  lemma AbsorbSeparate(S: Blocks, b: nat)
    requires Separate(S) && CanAbsorb(S, b)
    ensures Separate(Absorb(S, b))
  {
    var S2 := Absorb(S, b);
    var r := Next(S, b);
    forall x, y | x in S2 && y in S2 ensures SepOk(S2, x, y) {
      assert SepOk(S, x, y);
      assert SepOk(S, b, y);
      assert SepOk(S, r, y);
      assert SepOk(S, y, r);
    }
  }

  /** tlsf_add_pool: one block of w words and a sentinel. */
  function WithPool(S: Blocks, p: nat, w: nat): Blocks {
    S[p := Shape(w, 0, p)][p + 1 + w := Shape(0, p, p)]
  }

  /** The memory of a new pool: the words p + 1 up to its sentinel's header. */
  ghost predicate Fresh(S: Blocks, p: nat, end: nat) {
    forall c | c in S :: Next(S, c) <= p || end <= c
  }

  lemma PoolKeeps(S: Blocks, pools: map<nat, nat>, top: nat, p: nat, w: nat)
    requires Tiling(S, pools, top) && 3 <= w < MAX_WORDS && NULL_BLOCK + 3 <= p
    requires p + 2 + w < top && Fresh(S, p, p + 2 + w)
    ensures p !in pools && p !in S && p + 1 + w !in S
    ensures Tiling(WithPool(S, p, w), pools[p := p + 1 + w], top)
  {
    hide TileOk, PoolOk, SepOk;
    var S2 := WithPool(S, p, w);
    var pools2 := pools[p := p + 1 + w];
    PoolIsNew(S, pools, p, w);
    forall x | x in S2 ensures TileOk(S2, pools2, top, x) {
      assert x in S ==> TileOk(S, pools, top, x);
      PoolTile(S, pools, top, p, w, x);
    }
    forall q | q in pools2 ensures PoolOk(S2, pools2, q) {
      assert q in pools ==> PoolOk(S, pools, q);
      PoolPools(S, pools, p, w, q);
    }
    PoolSeparate(S, p, w);
  }

  lemma PoolIsNew(S: Blocks, pools: map<nat, nat>, p: nat, w: nat)
    requires (forall p {:trigger PoolOk(S, pools, p)} | p in pools :: PoolOk(S, pools, p))
    requires Fresh(S, p, p + 2 + w)
    ensures p !in pools && p !in S && p + 1 + w !in S
  {
    assert p in pools ==> PoolOk(S, pools, p);
  }

  lemma PoolPools(S: Blocks, pools: map<nat, nat>, p: nat, w: nat, q: nat)
    requires 3 <= w < MAX_WORDS && p !in S && p + 1 + w !in S && p !in pools
    requires q in pools[p := p + 1 + w] && (q in pools ==> PoolOk(S, pools, q))
    ensures PoolOk(WithPool(S, p, w), pools[p := p + 1 + w], q)
  {
  }

  lemma PoolSeparate(S: Blocks, p: nat, w: nat)
    requires Separate(S) && Fresh(S, p, p + 2 + w) && p !in S && p + 1 + w !in S
    ensures Separate(WithPool(S, p, w))
  {
    var S2 := WithPool(S, p, w);
    forall x, y | x in S2 && y in S2 ensures SepOk(S2, x, y) {
      assert x in S && y in S ==> SepOk(S, x, y);
    }
  }

  lemma PoolTile(S: Blocks, pools: map<nat, nat>, top: nat, p: nat, w: nat, x: nat)
    requires x in S ==> TileOk(S, pools, top, x)
    requires 3 <= w && NULL_BLOCK + 3 <= p && p !in S && p + 1 + w !in S && p !in pools
    requires p + 2 + w < top && x in WithPool(S, p, w)
    ensures TileOk(WithPool(S, p, w), pools[p := p + 1 + w], top, x)
  {
    var S2 := WithPool(S, p, w);
    var pools2 := pools[p := p + 1 + w];
    assert NextTileOk(S2, x);
    assert PredTileOk(S2, x);
    assert InPoolOk(S2, pools2, x);
  }
}
