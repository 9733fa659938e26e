/** The engine's heap: a TLSF allocator that grows by an arena when a request cannot be served. */
module Heap {
  import opened TlsfMapping
  import opened TlsfBlocks
  import opened TlsfMemory
  import opened Tlsf

  /** The size of a new arena's pool; size_t arithmetic wraps. */
  function ArenaSize(growIncrement: nat, size: nat): (r: nat)
    ensures r < SIZE_RANGE
  {
    (Wanted(growIncrement, size) + 16) % SIZE_RANGE
  }

  function Wanted(growIncrement: nat, size: nat): nat {
    var twice := size * 2 % SIZE_RANGE;
    if growIncrement > twice then growIncrement else twice
  }

  /** The pool of the arena made for `size` is one that tlsf_add_pool takes, with a 32nd of the request to spare. */
  predicate RoomFor(growIncrement: nat, size: nat, request: nat) {
    var bytes := ArenaSize(growIncrement, size);
    40 <= bytes < BLOCK_SIZE_MAX + 24 && FitsPool(bytes, request)
  }

  predicate FitsPool(bytes: nat, request: nat) {
    request + request / 32 <= 8 * (bytes / 8 - 2)
  }

  /** A new arena has room to spare for the request that made it necessary. */
  lemma ArenaServes(growIncrement: nat, size: nat)
    requires 4096 <= growIncrement < BLOCK_SIZE_MAX && 0 < size < 0x8000_0000
    ensures var bytes := ArenaSize(growIncrement, size); var adjust := AdjustRequest(size, 8);
      && 40 <= bytes < BLOCK_SIZE_MAX + 24 && PoolBytes(bytes) < BLOCK_SIZE_MAX
      && adjust > 0 && adjust % 8 == 0
      && RoomFor(growIncrement, size, adjust)
  {
    var bytes, adjust := ArenaSize(growIncrement, size), AdjustRequest(size, 8);
    assert size * 2 % SIZE_RANGE == size * 2;
    var most := if growIncrement > size * 2 then growIncrement else size * 2;
    assert bytes == most + 16;
    PoolBytesIs(bytes);
    hide PoolBytes;
    AdjustServes(size);
    AdjustPositive(size);
    AdjustTight(size);
    hide AdjustRequest;
    assert 8 * (bytes / 8 - 2) > most - 8;
  }

  /** heap_alloc would make the one arena that is too large: from 4 GB to 4 GB and 7 bytes are wanted. */
  predicate TooLargeAnArena(growIncrement: nat, size: nat) {
    Wanted(growIncrement, size) / 8 == BLOCK_SIZE_MAX / 8
  }

  /** The pool of such an arena, and of no other, has the size that has no list. With an increment
      below 4 GB these are the requests of 2^31 to 2^31 + 3 bytes, and those 2^63 bytes larger, whose
      doubling wraps around. */
  lemma GrowTooLarge(growIncrement: nat, size: nat)
    requires growIncrement < SIZE_RANGE && size < SIZE_RANGE
    ensures PoolBytes(ArenaSize(growIncrement, size)) == BLOCK_SIZE_MAX <==> TooLargeAnArena(growIncrement, size)
    ensures growIncrement < BLOCK_SIZE_MAX ==>
      (TooLargeAnArena(growIncrement, size) <==> size % 0x8000_0000_0000_0000 / 4 == 0x2000_0000)
    ensures MappingInsert(BLOCK_SIZE_MAX).0 == FL_INDEX_COUNT
  {
    hide PoolBytes, MappingInsert;
    var bytes := ArenaSize(growIncrement, size);
    PoolBytesIs(bytes);
    TooLargeAPool();
    assert size * 2 % SIZE_RANGE == 2 * (size % 0x8000_0000_0000_0000);
  }

  lemma AdjustTight(size: nat)
    requires size < SIZE_RANGE - 8
    ensures AdjustRequest(size, 8) <= size + 7 || AdjustRequest(size, 8) <= BLOCK_SIZE_MIN
  {
    RoundedDown(size + 7, 8);
  }

  class GameHeap {
    var tlsf: Allocator
    var growIncrement: nat
    var arenas: seq<nat>

    constructor (tlsf0: Allocator, growIncrement0: nat)
      ensures tlsf == tlsf0 && growIncrement == growIncrement0 && arenas == []
    {
      tlsf, growIncrement, arenas := tlsf0, growIncrement0, [];
    }

    /** The growth step of heap_alloc. */
    method Grow(size: nat, arena: nat)
      requires tlsf.Valid() && arena % 8 == 0 && tlsf.Usable(arena + 16, ArenaSize(growIncrement, size))
      requires growIncrement < SIZE_RANGE && size < SIZE_RANGE && !TooLargeAnArena(growIncrement, size)
      modifies this`arenas, tlsf
      ensures tlsf.Valid() && tlsf == old(tlsf) && growIncrement == old(growIncrement) && arenas == [arena] + old(arenas)
      ensures Quiet(old(tlsf.Now()), tlsf.Now(), {})
      ensures 4096 <= growIncrement < BLOCK_SIZE_MAX && 0 < size < 0x8000_0000 ==> !tlsf.NoFit(AdjustRequest(size, 8) / 8)
      ensures forall r: nat | RoomFor(growIncrement, size, 8 * r) :: !tlsf.NoFit(r)
    {
      hide AdjustRequest, PoolBytes, ArenaSize, Quiet, TooLargeAnArena, MappingInsert, Allocator.NoFit, Allocator.Valid, Allocator.Usable, FitsPool;
      GrowTooLarge(growIncrement, size);
      var arenaSize := ArenaSize(growIncrement, size);
      ghost var S0 := tlsf.S;
      var pool := tlsf.AddPool(arena + 16, arenaSize);
      arenas := [arena] + arenas;
      if 40 <= arenaSize < BLOCK_SIZE_MAX + 24 {
        RoomAt(arena, arenaSize, S0);
        hide WithPool;
        PoolServes(tlsf, arena / 8 + 1, arenaSize);
      }
      if 4096 <= growIncrement < BLOCK_SIZE_MAX && 0 < size < 0x8000_0000 {
        ArenaServes(growIncrement, size);
        assert FitsPool(arenaSize, 8 * (AdjustRequest(size, 8) / 8));
      }
    }

    /** heap_alloc. `arena` is the memory that the system would hand out for a new arena, 0 for none. */
    method Alloc(size: nat, alignment: nat, ghost k: nat, arena: nat) returns (address: nat)
      requires tlsf.Valid() && size < SIZE_RANGE && alignment == Pow2(k) && k < 63
      requires arena != 0 ==> arena % 8 == 0 && tlsf.Usable(arena + 16, ArenaSize(growIncrement, size))
      requires arena != 0 ==> growIncrement < SIZE_RANGE && !TooLargeAnArena(growIncrement, size)
      modifies this`arenas, tlsf
      ensures tlsf.Valid() && tlsf == old(tlsf) && growIncrement == old(growIncrement)
      ensures address != 0 ==> Handed(old(tlsf.Now()), tlsf.Now(), address, AdjustRequest(size, 8)) && address % alignment == 0
      ensures Quiet(old(tlsf.Now()), tlsf.Now(), if address == 0 then {} else {BlockOf(address)})
      ensures var need := AlignedRequest(alignment, size); var grows := arena != 0 && (need == 0 || old(tlsf.NoFit(need / 8)));
        && arenas == (if grows then [arena] + old(arenas) else old(arenas))
        && (address == 0 ==> need == 0 || (old(tlsf.NoFit(need / 8)) && tlsf.NoFit(need / 8)))
        && (need == 0 || (arena == 0 && old(tlsf.NoFit(need / 8))) ==> address == 0)
        && (address == 0 ==> arena == 0 || need == 0 || !RoomFor(growIncrement, size, need))
      ensures arena != 0 && alignment <= 8 && 4096 <= growIncrement < BLOCK_SIZE_MAX && 0 < size < 0x8000_0000 ==> address != 0
    {
      hide AdjustRequest, PoolBytes, ArenaSize, Pow2, Quiet, Handed, AlignedRequest, TooLargeAnArena, RoomFor, Allocator.Valid;
      ghost var v0 := tlsf.Now();
      AlignedServes(alignment, size, k);
      address := tlsf.Memalign(alignment, size, k);
      if address == 0 {
        if arena == 0 { return; }
        Grow(size, arena);
        ghost var v2 := tlsf.Now();
        address := tlsf.Memalign(alignment, size, k);
        GrownQuiet(v0, v2, tlsf.Now(), address, AdjustRequest(size, 8));
        if 0 < size < 0x8000_0000 && 4096 <= growIncrement < BLOCK_SIZE_MAX { ArenaServes(growIncrement, size); }
      }
    }

    /** heap_free */
    method Release(address: nat)
      requires tlsf.Valid() && (address != 0 ==> tlsf.Live(address))
      modifies tlsf
      ensures tlsf.Valid()
      ensures address != 0 ==> !UsedIn(tlsf.S, tlsf.F, BlockOf(address))
      ensures Quiet(old(tlsf.Now()), tlsf.Now(), if address == 0 then {} else {BlockOf(address)})
    {
      tlsf.Free(address);
    }
  }


  lemma PoolServes(tlsf: Allocator, b: nat, bytes: nat)
    requires tlsf.Valid() && b in tlsf.S && b in tlsf.F && tlsf.S[b].words == bytes / 8 - 2
    ensures forall r: nat | FitsPool(bytes, 8 * r) :: !tlsf.NoFit(r)
  {
    hide Allocator.NoFit, Allocator.Valid, FitsPool;
    forall r: nat | FitsPool(bytes, 8 * r) ensures !tlsf.NoFit(r) {
      PoolServesOne(tlsf, b, bytes, r, 8 * r);
    }
  }

  lemma PoolServesOne(tlsf: Allocator, b: nat, bytes: nat, r: nat, request: nat)
    requires tlsf.Valid() && b in tlsf.S && b in tlsf.F && tlsf.S[b].words == bytes / 8 - 2
    requires request == 8 * r && FitsPool(bytes, request)
    ensures !tlsf.NoFit(r)
  {
    hide Allocator.NoFit, Allocator.Valid;
    tlsf.RoomSuffices(request, b);
  }

  lemma RoomAt(arena: nat, bytes: nat, S: Blocks)
    requires arena % 8 == 0 && bytes >= 40
    ensures (arena + 16) / 8 - 1 == arena / 8 + 1
    ensures var b, w := arena / 8 + 1, bytes / 8 - 2; var S2 := WithPool(S, b, w);
      b in S2 && S2[b].words == w
  {
  }

  lemma GrownQuiet(v0: View, v2: View, v3: View, address: nat, adjust: nat)
    requires Quiet(v0, v2, {}) && Quiet(v2, v3, if address == 0 then {} else {BlockOf(address)})
    requires address != 0 ==> Handed(v2, v3, address, adjust)
    ensures Quiet(v0, v3, if address == 0 then {} else {BlockOf(address)})
    ensures address != 0 ==> Handed(v0, v3, address, adjust)
  {
    QuietTrans(v0, v2, v3, {}, if address == 0 then {} else {BlockOf(address)}, if address == 0 then {} else {BlockOf(address)});
    if address != 0 {
      var b := BlockOf(address);
      assert UsedIn(v0.S, v0.F, b) ==> QuietAt(v0, v2, b);
    }
  }
}
