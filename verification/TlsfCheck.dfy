/** tlsf_check and tlsf_check_pool on any memory whose lists and blocks can be followed: what they find wrong. */
module TlsfCheck {
  import opened TlsfMapping
  import opened TlsfBits
  import opened TlsfLists
  import opened TlsfMemory

  /** The header of block b, its links and the header behind it are in memory. */
  predicate Reachable(m: seq<nat>, b: nat) {
    b + 3 < |m| && After(m, b) + 1 < |m|
  }

  /** block_next */
  function After(m: seq<nat>, b: nat): nat
    requires b + 1 < |m|
  {
    b + 1 + SizeOf(m[b + 1])
  }

  // -------------------------------------------------------------------- lists

  /** Following next_free from head one meets the blocks of the chain, and then the null block. */
  ghost predicate ListWalk(m: seq<nat>, head: nat, chain: seq<nat>) {
    && head == FirstOf(chain)
    && forall k: nat | k < |chain| :: WalkAt(m, chain, k)
  }

  ghost function FirstOf(chain: seq<nat>): nat { if chain == [] then NULL_BLOCK else chain[0] }

  ghost predicate WalkAt(m: seq<nat>, chain: seq<nat>, k: nat)
    requires k < |chain|
  {
    chain[k] != NULL_BLOCK && Reachable(m, chain[k]) && m[chain[k] + 2] == FirstOf(chain[k + 1..])
  }

  /** A block that may be on list (i, j): free, between blocks in use, and of the list's sizes. */
  predicate NodeSound(m: seq<nat>, b: nat, i: nat, j: nat)
    requires Reachable(m, b)
  {
    var h, n := m[b + 1], m[After(m, b) + 1];
    && FreeBit(h) && !PrevFreeBit(h) && !FreeBit(n) && PrevFreeBit(n)
    && 8 * SizeOf(h) >= BLOCK_SIZE_MIN && MappingInsert(8 * SizeOf(h)) == (i, j)
  }

  method CheckNode(m: seq<nat>, b: nat, i: nat, j: nat) returns (status: int)
    requires Reachable(m, b)
    ensures status <= 0 && (status == 0 <==> NodeSound(m, b, i, j))
  {
    hide SizeOf, FreeBit, PrevFreeBit, MappingInsert;
    status := 0;
    if !FreeBit(m[b + 1]) { status := status - 1; }
    if PrevFreeBit(m[b + 1]) { status := status - 1; }
    var next := After(m, b);
    if FreeBit(m[next + 1]) { status := status - 1; }
    if !PrevFreeBit(m[next + 1]) { status := status - 1; }
    if 8 * SizeOf(m[b + 1]) < BLOCK_SIZE_MIN { status := status - 1; }
    var (fli, sli) := MappingInsert(8 * SizeOf(m[b + 1]));
    if !(fli == i && sli == j) { status := status - 1; }
  }

  ghost predicate AllSound(m: seq<nat>, chain: seq<nat>, n: nat, i: nat, j: nat) {
    forall k: nat | k < n && k < |chain| :: Reachable(m, chain[k]) && NodeSound(m, chain[k], i, j)
  }

  /** The blocks of a list that is not empty. */
  method CheckNodes(m: seq<nat>, head: nat, i: nat, j: nat, ghost chain: seq<nat>) returns (status: int)
    requires ListWalk(m, head, chain)
    ensures status <= 0 && (status == 0 <==> AllSound(m, chain, |chain|, i, j))
  {
    hide NodeSound, Reachable;
    status := 0;
    var block := head;
    ghost var k: nat := 0;
    assert chain[0..] == chain;
    while block != NULL_BLOCK
      invariant k <= |chain| && block == FirstOf(chain[k..])
      invariant status <= 0 && (status == 0 <==> AllSound(m, chain, k, i, j))
      decreases |chain| - k
    {
      assert WalkAt(m, chain, k) && block == chain[k];
      WalkIn(m, chain, k);
      var s := CheckNode(m, block, i, j);
      status := status + s;
      block := m[block + 2];
      k := k + 1;
    }
    EndOfChain(m, head, chain, k);
  }

  lemma WalkIn(m: seq<nat>, chain: seq<nat>, k: nat)
    requires k < |chain| && WalkAt(m, chain, k)
    ensures Reachable(m, chain[k]) && chain[k] + 3 < |m|
  {
  }

  /** One more block in front of a list. */
  lemma ListCons(m: seq<nat>, b: nat, rest: seq<nat>, i: nat, j: nat)
    requires b != NULL_BLOCK && Reachable(m, b) && NodeSound(m, b, i, j) && ListWalk(m, m[b + 2], rest) && AllSound(m, rest, |rest|, i, j)
    ensures ListWalk(m, b, [b] + rest) && AllSound(m, [b] + rest, |[b] + rest|, i, j)
  {
    hide NodeSound, Reachable;
    var chain := [b] + rest;
    assert chain[1..] == rest;
    forall k: nat | k < |chain| ensures WalkAt(m, chain, k) && Reachable(m, chain[k]) && NodeSound(m, chain[k], i, j) {
      if k > 0 {
        assert WalkAt(m, rest, k - 1) && chain[k + 1..] == rest[k..];
        assert Reachable(m, rest[k - 1]) && NodeSound(m, rest[k - 1], i, j);
      }
    }
  }

  lemma EndOfChain(m: seq<nat>, head: nat, chain: seq<nat>, k: nat)
    requires ListWalk(m, head, chain) && k <= |chain|
    ensures FirstOf(chain[k..]) == NULL_BLOCK ==> k == |chain|
  {
    if k < |chain| { assert WalkAt(m, chain, k) && chain[k..][0] == chain[k]; }
  }

  /** The bitmaps say whether the list is empty, and its blocks may be on it. */
  ghost predicate ListSound(m: seq<nat>, head: nat, slList: word, flBitmap: word, chain: seq<nat>, i: nat, j: nat) {
    && (Bit(slList, j) <==> head != NULL_BLOCK) && (Bit(slList, j) ==> Bit(flBitmap, i))
    && AllSound(m, chain, |chain|, i, j)
  }

  /** The part of tlsf_check about one list. */
  method CheckList(m: seq<nat>, head: nat, slList: word, flBitmap: word, i: nat, j: nat, ghost chain: seq<nat>) returns (status: int)
    requires ListWalk(m, head, chain) && i < 32 && j < 32
    ensures status <= 0 && (status == 0 <==> ListSound(m, head, slList, flBitmap, chain, i, j))
  {
    hide Bit, AllSound;
    status := 0;
    var flMap, slMap := Bit(flBitmap, i), Bit(slList, j);
    if !flMap && slMap { status := status - 1; }
    if !slMap {
      if head != NULL_BLOCK { status := status - 1; } else { NoneWalked(m, head, chain, i, j); }
      return;
    }
    if slList == 0 { status := status - 1; }
    BitNonzero(slList, j);
    if head == NULL_BLOCK { status := status - 1; }
    var s := CheckNodes(m, head, i, j, chain);
    status := status + s;
  }

  lemma NoneWalked(m: seq<nat>, head: nat, chain: seq<nat>, i: nat, j: nat)
    requires ListWalk(m, head, chain) && head == NULL_BLOCK
    ensures AllSound(m, chain, |chain|, i, j)
  {
    assert chain != [] ==> WalkAt(m, chain, 0);
  }

  // -------------------------------------------------------------------- pools

  /** The blocks of a pool from its first to the sentinel, whose size is 0. */
  ghost predicate PoolWalk(m: seq<nat>, b: nat, blocks: seq<nat>) {
    blocks != [] && blocks[0] == b && forall k: nat | k < |blocks| :: PoolAt(m, blocks, k)
  }

  ghost predicate PoolAt(m: seq<nat>, blocks: seq<nat>, k: nat)
    requires k < |blocks|
  {
    && blocks[k] + 1 < |m| && (SizeOf(m[blocks[k] + 1]) == 0 <==> k == |blocks| - 1)
    && (k < |blocks| - 1 ==> blocks[k + 1] == After(m, blocks[k]))
  }

  /** One more block in front of those of a pool. */
  lemma PoolCons(m: seq<nat>, b: nat, rest: seq<nat>)
    requires b + 1 < |m| && SizeOf(m[b + 1]) > 0 && PoolWalk(m, After(m, b), rest)
    ensures PoolWalk(m, b, [b] + rest)
  {
    hide SizeOf, After;
    var blocks := [b] + rest;
    forall k: nat | k < |blocks| ensures PoolAt(m, blocks, k) {
      if k > 0 { assert PoolAt(m, rest, k - 1); }
    }
  }

  lemma PoolEnd(m: seq<nat>, b: nat)
    requires b + 1 < |m| && SizeOf(m[b + 1]) == 0
    ensures PoolWalk(m, b, [b])
  {
  }

  /** The k-th block says rightly whether the one before it is free. */
  ghost predicate PrevSound(m: seq<nat>, blocks: seq<nat>, k: nat) {
    k < |blocks| && blocks[k] + 1 < |m| && (k > 0 ==> blocks[k - 1] + 1 < |m|)
    && (PrevFreeBit(m[blocks[k] + 1]) <==> k > 0 && FreeBit(m[blocks[k - 1] + 1]))
  }

  lemma PrevCons(m: seq<nat>, b: nat, rest: seq<nat>)
    requires rest != [] && b + 1 < |m| && rest[0] + 1 < |m| && (PrevFreeBit(m[rest[0] + 1]) <==> FreeBit(m[b + 1]))
    requires forall k: nat | 0 < k < |rest| :: PrevSound(m, rest, k)
    ensures forall k: nat | 0 < k < |[b] + rest| :: PrevSound(m, [b] + rest, k)
  {
    hide FreeBit, PrevFreeBit;
    var blocks := [b] + rest;
    forall k: nat | 0 < k < |blocks| ensures PrevSound(m, blocks, k) {
      if k > 1 { assert PrevSound(m, rest, k - 1); }
    }
  }

  /** tlsf_check_pool with the integrity walker: the number of failed checks, negated. It does not look at
      the sentinel. */
  method CheckPool(m: seq<nat>, pool: nat, ghost blocks: seq<nat>) returns (status: int)
    requires pool >= 16 && PoolWalk(m, pool / 8 - 1, blocks)
    ensures status <= 0 && (status == 0 <==> forall k: nat | k < |blocks| - 1 :: PrevSound(m, blocks, k))
  {
    hide SizeOf, FreeBit, PrevFreeBit, After;
    status := 0;
    var b, prevStatus := pool / 8 - 1, false;
    ghost var k: nat := 0;
    assert PoolAt(m, blocks, 0);
    while SizeOf(m[b + 1]) != 0
      invariant k < |blocks| && b == blocks[k] && b + 1 < |m|
      invariant prevStatus <==> k > 0 && blocks[k - 1] + 1 < |m| && FreeBit(m[blocks[k - 1] + 1])
      invariant k > 0 ==> blocks[k - 1] + 1 < |m|
      invariant status <= 0 && (status == 0 <==> forall i: nat | i < k :: PrevSound(m, blocks, i))
      decreases |blocks| - k
    {
      assert PoolAt(m, blocks, k) && PoolAt(m, blocks, k + 1);
      var thisPrevStatus := PrevFreeBit(m[b + 1]);
      var thisStatus := FreeBit(m[b + 1]);
      assert PrevSound(m, blocks, k) <==> thisPrevStatus == prevStatus;
      if prevStatus != thisPrevStatus { status := status - 1; }
      prevStatus := thisStatus;
      b := After(m, b);
      k := k + 1;
    }
    assert PoolAt(m, blocks, k);
  }
}
