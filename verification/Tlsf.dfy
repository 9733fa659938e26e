/** The TLSF allocator: segregated free lists over boundary-tagged blocks. */
module Tlsf {
  import opened TlsfMapping
  import opened TlsfBits
  import opened TlsfLists
  import opened TlsfBlocks
  import opened TlsfMemory
  import opened TlsfInvariant
  import opened TlsfCheck

  class Allocator {
    var mem: seq<nat>
    var heads: seq<nat>
    var slBitmap: seq<word>
    var flBitmap: word
    ghost var S: Blocks
    ghost var F: set<nat>
    ghost var Q: set<nat>
    ghost var L: map<nat, Link>
    ghost var pools: map<nat, nat>
    ghost var clock: nat
    ghost var odd: set<nat>

    ghost predicate Physical() reads this { PhysicalOk(mem, S, F, Q, pools, odd) }

    ghost predicate Listed() reads this { ListedOk(mem, heads, slBitmap, flBitmap, S, F, L, clock) }

    ghost function Now(): View reads this { View(mem, S, F) }

    ghost predicate Core() reads this { Physical() && Listed() }

    /** insert_free_block: b becomes the head of its list. */
    method InsertFreeBlock(b: nat, fl: nat, sl: nat)
      requires |heads| == CLASSES && |slBitmap| == 25 && fl < 25 && sl < 32
      requires b + 3 < |mem| && heads[32 * fl + sl] + 3 < |mem|
      modifies this`mem, this`heads, this`slBitmap, this`flBitmap
      ensures var current := old(heads)[32 * fl + sl];
        mem == old(mem)[b + 2 := current][b + 3 := NULL_BLOCK][current + 3 := b]
      ensures heads == old(heads)[32 * fl + sl := b]
      ensures slBitmap == old(slBitmap)[fl := SetBit(old(slBitmap)[fl], sl)] && flBitmap == SetBit(old(flBitmap), fl)
    {
      hide SetBit;
      var current := heads[32 * fl + sl];
      mem := mem[b + 2 := current];
      mem := mem[b + 3 := NULL_BLOCK];
      mem := mem[current + 3 := b];
      heads := heads[32 * fl + sl := b];
      flBitmap := SetBit(flBitmap, fl);
      slBitmap := slBitmap[fl := SetBit(slBitmap[fl], sl)];
    }

    /** block_insert */
    method BlockInsert(b: nat)
      requires Core() && b in S && b in F && b !in L && S[b].words > 0
      requires Next(S, b) !in L && S[b].pred !in L
      modifies this`mem, this`heads, this`slBitmap, this`flBitmap, this`L, this`clock
      ensures Core() && L.Keys == old(L.Keys) + {b}
      ensures Quiet(old(Now()), Now(), {})
    {
      hide ListedOk, Tiling, Headers, Flags, Ends, Agree, OnlyLinksChanged, Quiet;
      hide ClassOf, MappingInsert, Inserted, SizeOf, FreeBit, PrevFreeBit, SetBit;
      SizeRead(mem, S, F, Q, b);
      BlockFits(S, pools, |mem|, b);
      var size := 8 * SizeOf(mem[b + 1]);
      var (fl, sl) := MappingInsert(size);
      ClassPosition(size, fl, sl);
      InsertListed(mem, heads, slBitmap, flBitmap, S, F, L, clock, pools, b, fl, sl);
      ghost var c := 32 * fl + sl;
      ListedAgree(mem, heads, slBitmap, flBitmap, S, F, L, clock);
      hide PhysicalOk;
      InsertPhysical(mem, S, F, Q, L, pools, odd, b, heads[c]);
      ListedShape(mem, heads, slBitmap, flBitmap, S, F, L, clock);
      InsertFreeBlock(b, fl, sl);
      L := Inserted(L, old(heads), clock, b, c);
      clock := clock + 1;
      QuietUntouched(old(mem), mem, S, F);
    }

    /** remove_free_block */
    method RemoveFreeBlock(b: nat, fl: nat, sl: nat)
      requires Core() && b in L && fl < 25 && sl < 32 && 32 * fl + sl == L[b].cls
      modifies this`mem, this`heads, this`slBitmap, this`flBitmap, this`L
      ensures Core() && L.Keys == old(L.Keys) - {b}
      ensures Quiet(old(Now()), Now(), {})
    {
      hide ListedOk, Tiling, Headers, Flags, Ends, Agree, OnlyLinksChanged, Quiet, Removed;
      var sl2, fl2 := RemoveListed(mem, heads, slBitmap, flBitmap, S, F, L, clock, pools, b, fl, sl);
      ListedAgree(mem, heads, slBitmap, flBitmap, S, F, L, clock);
      hide PhysicalOk;
      RemovePhysical(mem, S, F, Q, L, pools, odd, mem[b + 2], mem[b + 3]);
      ghost var was := mem;
      Unlink(b, fl, sl);
      L := Removed(L, b);
      QuietUntouched(was, mem, S, F);
    }

    /** Its writes. */
    method Unlink(b: nat, fl: nat, sl: nat)
      requires 32 * fl + sl < |heads| && |slBitmap| == 25 && fl < 25 && b + 3 < |mem| && mem[b + 2] + 3 < |mem| && mem[b + 3] + 3 < |mem|
      modifies this`mem, this`heads, this`slBitmap, this`flBitmap
      ensures mem == old(var n, p := mem[b + 2], mem[b + 3]; mem[n + 3 := p][p + 2 := n])
      ensures heads == old(if heads[32 * fl + sl] == b then heads[32 * fl + sl := mem[b + 2]] else heads)
      ensures var last := old(heads[32 * fl + sl] == b && mem[b + 2] == NULL_BLOCK);
        && slBitmap == (if last then old(slBitmap)[fl := ClearBit(old(slBitmap)[fl], sl)] else old(slBitmap))
        && flBitmap == (if last && slBitmap[fl] == 0 then ClearBit(old(flBitmap), fl) else old(flBitmap))
    {
      hide ClearBit;
      var c := 32 * fl + sl;
      var prev := mem[b + 3];
      var next := mem[b + 2];
      mem := mem[next + 3 := prev];
      mem := mem[prev + 2 := next];
      if heads[c] == b {
        heads := heads[c := next];
        if next == NULL_BLOCK {
          slBitmap := slBitmap[fl := ClearBit(slBitmap[fl], sl)];
          if slBitmap[fl] == 0 {
            flBitmap := ClearBit(flBitmap, fl);
          }
        }
      }
    }

    /** block_remove */
    method BlockRemove(b: nat)
      requires Core() && b in L
      modifies this`mem, this`heads, this`slBitmap, this`flBitmap, this`L
      ensures Core() && L.Keys == old(L.Keys) - {b}
      ensures Quiet(old(Now()), Now(), {})
    {
      hide ListedOk, Tiling, Headers, Flags, Ends, Agree, OnlyLinksChanged, Quiet, ClassOf, MappingInsert, SizeOf, FreeBit, PrevFreeBit;
      ListedAgree(mem, heads, slBitmap, flBitmap, S, F, L, clock);
      AgreeAt(S, F, L, b);
      SizeRead(mem, S, F, Q, b);
      var size := 8 * SizeOf(mem[b + 1]);
      var (fl, sl) := MappingInsert(size);
      ClassPosition(size, fl, sl);
      hide PhysicalOk;
      RemoveFreeBlock(b, fl, sl);
    }

    /** block_next */
    method BlockNext(b: nat) returns (next: nat)
      requires Physical() && b in S && S[b].words > 0
      ensures next == Next(S, b) && next in S && S[next].pred == b
    {
      hide Headers, SizeOf, FreeBit, PrevFreeBit;
      SizeRead(mem, S, F, Q, b);
      BlockFits(S, pools, |mem|, b);
      next := b + 1 + SizeOf(mem[b + 1]);
    }

    /** block_link_next */
    method LinkNext(b: nat) returns (next: nat)
      requires Core() && b in S && S[b].words > 0 && b in odd
      modifies this`mem
      ensures Core() && next == Next(S, b) && next in S && S[next].pred == b
      ensures next < |old(mem)| && mem == old(mem)[next := b]
      ensures Quiet(old(Now()), Now(), {b})
    {
      hide ListedOk, Quiet;
      next := BlockNext(b);
      LinkStep(mem, S, F, Q, pools, odd, b);
      LinkStepLists(mem, heads, slBitmap, flBitmap, S, F, L, clock, pools, b);
      BlockFits(S, pools, |mem|, b);
      hide PhysicalOk;
      mem := mem[next := b];
    }

    /** block_set_prev_free */
    method BlockSetPrevFree(b: nat)
      requires Core() && b in S && S[b].pred in odd && S[b].pred != 0
      modifies this`mem, this`Q
      ensures Core() && Q == old(Q) + {b}
      ensures b + 1 < |old(mem)| && mem == old(mem)[b + 1 := Header(S[b].words, b in F, b in Q)]
      ensures Quiet(old(Now()), Now(), {}) && PayloadSame(old(mem), mem, S, b)
    {
      hide ListedOk, Quiet, Headers, SetPrevFree, Tiling, Ends, Flags, PayloadSame;
      HeaderAt(mem, S, F, Q, b);
      HeaderSets(S[b].words, b in F, b in Q);
      var v := SetPrevFree(mem[b + 1]);
      HeaderStep(mem, S, F, Q, F, Q + {b}, pools, odd, b, v);
      TilingSeparate(S, pools, |mem|);
      ListedInFree(mem, heads, slBitmap, flBitmap, S, F, L, clock);
      HeaderStepLists(mem, heads, slBitmap, flBitmap, S, F, F, L, clock, b, v);
      HeaderStepQuiet(mem, S, F, F, pools, b, v, {});
      mem := mem[b + 1 := v];
      Q := Q + {b};
    }

    /** block_set_prev_used */
    method BlockSetPrevUsed(b: nat)
      requires Core() && b in S && S[b].pred in odd && S[b].pred != 0
      modifies this`mem, this`Q
      ensures Core() && Q == old(Q) - {b}
      ensures b + 1 < |old(mem)| && mem == old(mem)[b + 1 := Header(S[b].words, b in F, b in Q)]
      ensures Quiet(old(Now()), Now(), {}) && PayloadSame(old(mem), mem, S, b)
    {
      hide ListedOk, Quiet, Headers, SetPrevUsed, Tiling, Ends, Flags, PayloadSame;
      HeaderAt(mem, S, F, Q, b);
      HeaderSets(S[b].words, b in F, b in Q);
      var v := SetPrevUsed(mem[b + 1]);
      HeaderStep(mem, S, F, Q, F, Q - {b}, pools, odd, b, v);
      TilingSeparate(S, pools, |mem|);
      ListedInFree(mem, heads, slBitmap, flBitmap, S, F, L, clock);
      HeaderStepLists(mem, heads, slBitmap, flBitmap, S, F, F, L, clock, b, v);
      HeaderStepQuiet(mem, S, F, F, pools, b, v, {});
      mem := mem[b + 1 := v];
      Q := Q - {b};
    }

    /** block_set_free */
    method BlockSetFree(b: nat)
      requires Core() && b in S && b in odd && S[b].words > 0
      modifies this`mem, this`F
      ensures Core() && F == old(F) + {b}
      ensures b + 1 < |old(mem)| && mem == old(mem)[b + 1 := Header(S[b].words, b in F, b in Q)]
      ensures Quiet(old(Now()), Now(), {b}) && PayloadSame(old(mem), mem, S, b)
    {
      hide ListedOk, Quiet, Headers, SetFree, Tiling, Ends, Flags, PayloadSame;
      HeaderAt(mem, S, F, Q, b);
      HeaderSets(S[b].words, b in F, b in Q);
      var v := SetFree(mem[b + 1]);
      HeaderStep(mem, S, F, Q, F + {b}, Q, pools, odd, b, v);
      TilingSeparate(S, pools, |mem|);
      ListedInFree(mem, heads, slBitmap, flBitmap, S, F, L, clock);
      HeaderStepLists(mem, heads, slBitmap, flBitmap, S, F, F + {b}, L, clock, b, v);
      HeaderStepQuiet(mem, S, F, F + {b}, pools, b, v, {b});
      mem := mem[b + 1 := v];
      F := F + {b};
    }

    /** block_set_used */
    method BlockSetUsed(b: nat)
      requires Core() && b in S && b in odd && S[b].words > 0 && b !in L
      modifies this`mem, this`F
      ensures Core() && F == old(F) - {b}
      ensures b + 1 < |old(mem)| && mem == old(mem)[b + 1 := Header(S[b].words, b in F, b in Q)]
      ensures Quiet(old(Now()), Now(), {b}) && PayloadSame(old(mem), mem, S, b)
    {
      hide ListedOk, Quiet, Headers, SetUsed, Tiling, Ends, Flags, PayloadSame;
      HeaderAt(mem, S, F, Q, b);
      HeaderSets(S[b].words, b in F, b in Q);
      var v := SetUsed(mem[b + 1]);
      HeaderStep(mem, S, F, Q, F - {b}, Q, pools, odd, b, v);
      TilingSeparate(S, pools, |mem|);
      ListedInFree(mem, heads, slBitmap, flBitmap, S, F, L, clock);
      HeaderStepLists(mem, heads, slBitmap, flBitmap, S, F, F - {b}, L, clock, b, v);
      HeaderStepQuiet(mem, S, F, F - {b}, pools, b, v, {b});
      mem := mem[b + 1 := v];
      F := F - {b};
    }

    /** block_mark_as_free */
    method MarkAsFree(b: nat)
      requires Core() && b in S && S[b].words > 0
      modifies this`mem, this`F, this`Q, this`odd
      ensures Core() && F == old(F) + {b} && Q == old(Q) + {Next(S, b)} && odd == old(odd) - {b}
      ensures Quiet(old(Now()), Now(), {b})
    {
      hide PhysicalOk, ListedOk, Quiet, PayloadSame;
      Unsettled(mem, S, F, Q, pools, odd, b);
      odd := odd + {b};
      BlockPositive(b);
      var next := LinkNext(b);
      ghost var v1 := Now();
      BlockSetPrevFree(next);
      ghost var v2 := Now();
      BlockSetFree(b);
      QuietTrans(old(Now()), v1, v2, {b}, {}, {b});
      QuietTrans(old(Now()), v2, Now(), {b}, {b}, {b});
      Settled(mem, S, F, Q, pools, odd, b);
      odd := odd - {b};
    }

    /** block_mark_as_used */
    method MarkAsUsed(b: nat)
      requires Core() && b in S && S[b].words > 0 && b !in L
      modifies this`mem, this`F, this`Q, this`odd
      ensures Core() && F == old(F) - {b} && Q == old(Q) - {Next(S, b)} && odd == old(odd) - {b}
      ensures Quiet(old(Now()), Now(), {b}) && PayloadSame(old(mem), mem, S, b)
    {
      hide PhysicalOk, ListedOk, Quiet;
      Unsettled(mem, S, F, Q, pools, odd, b);
      odd := odd + {b};
      BlockPositive(b);
      var next := BlockNext(b);
      BlockSetPrevUsed(next);
      ghost var v1 := Now();
      BlockSetUsed(b);
      QuietTrans(old(Now()), v1, Now(), {}, {b}, {b});
      Settled(mem, S, F, Q, pools, odd, b);
      odd := odd - {b};
    }

    /** block_absorb: afterwards b is linked to the block behind, which still says that a free one precedes it. */
    method BlockAbsorb(b: nat, r: nat)
      requires Core() && CanAbsorb(S, b) && r == Next(S, b)
      requires r in F && r !in odd && b !in L && r !in L
      modifies this`mem, this`S, this`F, this`Q, this`odd
      ensures Core() && S == old(Absorb(S, b)) && F == old(F) - {r} && Q == old(Q) - {r}
      ensures Next(old(S), r) == Next(S, b) && Next(S, b) in Q
      ensures odd == if b in F then old(odd) - {b} else old(odd) + {b}
      ensures Quiet(old(Now()), Now(), {b}) && PayloadSame(old(mem), mem, old(S), b)
    {
      hide PhysicalOk, ListedOk, Quiet, PayloadSame, Absorb;
      ghost var v0 := Now();
      Join(b, r);
      ghost var v1 := Now();
      var next := LinkNext(b);
      QuietTrans(v0, v1, Now(), {b}, {b}, {b});
      PayloadBelow(v0.m, v1.m, old(S), b, next, b);
      if b in F {
        Settled(mem, S, F, Q, pools, odd, b);
        odd := odd - {b};
        assert odd == old(odd) - {b};
      }
    }

    /** The two become one block, not linked to the one behind yet. */
    method Join(b: nat, r: nat)
      requires Core() && CanAbsorb(S, b) && r == Next(S, b)
      requires r in F && r !in odd && b !in L && r !in L
      modifies this`mem, this`S, this`F, this`Q, this`odd
      ensures Core() && S == old(Absorb(S, b)) && F == old(F) - {r} && Q == old(Q) - {r} && odd == old(odd) + {b}
      ensures b in S && S[b].words > 0 && Next(old(S), r) == Next(S, b) && Next(S, b) in Q && b + 1 < Next(S, b) < |mem| == |old(mem)|
      ensures Quiet(old(Now()), Now(), {b}) && b in old(S) && PayloadSame(old(mem), mem, old(S), b) && Next(old(S), b) < Next(S, b)
    {
      hide PhysicalOk, ListedOk, Quiet, PayloadSame, SizeOf, Absorb;
      JoinSizes(b, r);
      var v := mem[b + 1] + 8 * SizeOf(mem[r + 1]) + 8;
      JoinKeeps(b, r, v);
      mem := mem[b + 1 := v];
      S, F, Q, odd := Absorb(S, b), F - {r}, Q - {r}, odd + {b};
    }

    lemma JoinSizes(b: nat, r: nat)
      requires Core() && CanAbsorb(S, b) && r == Next(S, b)
      ensures b < r && r + 1 < |mem|
    {
      hide ListedOk, Headers, Ends;
      BlockFits(S, pools, |mem|, r);
      BlockFits(S, pools, |mem|, b);
    }

    lemma JoinKeeps(b: nat, r: nat, v: nat)
      requires Core() && CanAbsorb(S, b) && r == Next(S, b) && r in F && r !in odd && b !in L && r !in L
      requires r + 1 < |mem| && b + 1 < |mem| && v == mem[b + 1] + 8 * SizeOf(mem[r + 1]) + 8
      ensures var m, S2, F2, Q2 := mem[b + 1 := v], Absorb(S, b), F - {r}, Q - {r};
        && PhysicalOk(m, S2, F2, Q2, pools, odd + {b}) && ListedOk(m, heads, slBitmap, flBitmap, S2, F2, L, clock)
        && Quiet(Now(), View(m, S2, F2), {b}) && PayloadSame(mem, m, S, b)
        && b in S2 && S2[b].words > 0 && Next(S, r) == Next(S2, b) && Next(S2, b) in Q2 && b + 1 < Next(S2, b) < |mem| && r < Next(S2, b)
    {
      hide ListedOk, Quiet, Headers, Tiling, Ends, PayloadSame, Header, SizeOf, FreeBit, PrevFreeBit, Absorb;
      BlockFits(S, pools, |mem|, r);
      BlockFits(S, pools, |mem|, b);
      SizeRead(mem, S, F, Q, r);
      HeaderAt(mem, S, F, Q, b);
      HeaderGrows(S[b].words, S[r].words, b in F, b in Q);
      AbsorbStep(mem, S, F, Q, pools, odd, b, r, v);
      AbsorbQuiet(mem, S, F, pools, b, r, v);
      AbsorbedLists(b, r, v);
      FlagsAt(mem, S, F, Q, odd, r);
      AbsorbShapes(S, b);
    }

    /** block_split: the second part is marked free; whether it follows a free block is left open. */
    method BlockSplit(b: nat, w: nat) returns (r: nat)
      requires Core() && CanSplit(S, b, w) && b !in L && odd == {}
      modifies this`mem, this`S, this`F, this`Q, this`odd
      ensures Core() && r == b + 1 + w && r !in old(S) && S == old(Split(S, b, w))
      ensures F == old(F) + {r} && Q - {r} == old(Q) + {Next(old(S), b)} - {r} && odd == {b}
      ensures Quiet(old(Now()), Now(), {b}) && (b !in F ==> PayloadSame(old(mem), mem, S, b))
    {
      hide PhysicalOk, ListedOk, Quiet, PayloadSame, Split;
      ghost var v0 := Now();
      r := Cut(b, w);
      ghost var v1 := Now();
      ghost var Q1 := Q;
      MarkAsFree(r);
      SplitEnd(v0, v1, Now(), b, r);
      BothParts(old(Q), Q1, Q, r, Next(S, r), b, odd);
    }

    lemma BothParts(Q0: set<nat>, Q1: set<nat>, Q2: set<nat>, r: nat, n: nat, b: nat, rest: set<nat>)
      requires Q1 - {r} == Q0 - {r} && Q2 == Q1 + {n} && n != r && b != r && rest == {b, r} - {r}
      ensures Q2 - {r} == Q0 + {n} - {r} && rest == {b}
    {
      forall x | x != r ensures x in Q1 <==> x in Q0 {
        assert x in Q1 - {r} <==> x in Q0 - {r};
      }
    }

    /** The two sizes are written; the second part has the flags that were in memory. */
    method Cut(b: nat, w: nat) returns (r: nat)
      requires Core() && CanSplit(S, b, w) && b !in L && odd == {}
      modifies this`mem, this`S, this`F, this`Q, this`odd
      ensures Core() && r == b + 1 + w && r !in old(S) && S == old(Split(S, b, w)) && b in S && r in S && S[r].words > 0 && S[b].words > 0
      ensures F + {r} == old(F) + {r} && Q - {r} == old(Q) - {r} && odd == {b, r} && Next(S, r) == Next(old(S), b) && Next(S, r) != r
      ensures (b in F <==> b in old(F)) && |mem| == |old(mem)|
      ensures Quiet(old(Now()), Now(), {b, r}) && PayloadSame(old(mem), mem, S, b)
    {
      hide PhysicalOk, ListedOk, Quiet, PayloadSame, SizeOf, FreeBit, PrevFreeBit, Split, SetSize;
      CutSizes(b, w);
      r := b + 1 + w;
      var remain := SizeOf(mem[b + 1]) - (w + 1);
      ghost var f, p := FreeBit(mem[r + 1]), PrevFreeBit(mem[r + 1]);
      var u := SetSize(mem[r + 1], remain);
      var v := SetSize(mem[b + 1], w);
      CutKeeps(b, w, r, f, p, u, v);
      mem := mem[r + 1 := u];
      mem := mem[b + 1 := v];
      S, F, Q, odd := Split(S, b, w), Marked(F, r, f), Marked(Q - {r}, r, p), {b, r};
    }

    lemma CutSizes(b: nat, w: nat)
      requires Core() && CanSplit(S, b, w)
      ensures b + w + 2 < |mem| && SizeOf(mem[b + 1]) == S[b].words >= w + 1
    {
      hide ListedOk, Headers, Tiling, Ends, SizeOf;
      SizeRead(mem, S, F, Q, b);
      BlockFits(S, pools, |mem|, b);
    }

    lemma CutKeeps(b: nat, w: nat, r: nat, f: bool, p: bool, u: nat, v: nat)
      requires Core() && CanSplit(S, b, w) && b !in L && odd == {} && r == b + 1 + w && r + 1 < |mem|
      requires f == FreeBit(mem[r + 1]) && p == PrevFreeBit(mem[r + 1]) && u == SetSize(mem[r + 1], S[b].words - (w + 1)) && v == SetSize(mem[b + 1], w)
      ensures var m, S2, F2, Q2 := mem[r + 1 := u][b + 1 := v], Split(S, b, w), Marked(F, r, f), Marked(Q - {r}, r, p);
        && PhysicalOk(m, S2, F2, Q2, pools, {b, r}) && ListedOk(m, heads, slBitmap, flBitmap, S2, F2, L, clock)
        && Quiet(Now(), View(m, S2, F2), {b, r}) && b in S2 && PayloadSame(mem, m, S2, b)
        && r !in S && r in S2 && S2[r].words > 0 && S2[b].words > 0 && Next(S2, r) == Next(S, b) && Next(S, b) != r
        && F2 + {r} == F + {r} && Q2 - {r} == Q - {r} && (b in F2 <==> b in F)
    {
      hide ListedOk, Quiet, Headers, Tiling, Ends, PayloadSame, Header, SizeOf, FreeBit, PrevFreeBit, Split, SetSize;
      SizeRead(mem, S, F, Q, b);
      BlockFits(S, pools, |mem|, b);
      HeaderSized(mem[r + 1], S[b].words - (w + 1));
      HeaderAt(mem, S, F, Q, b);
      HeaderSized(mem[b + 1], w);
      SplitStep(mem, S, F, Q, pools, odd, b, w, r, f, p);
      SplitKeeps(S, pools, |mem|, b, w);
      TilingSeparate(S, pools, |mem|);
      SplitLists(mem, heads, slBitmap, flBitmap, S, F, L, clock, b, w, r, f, u, v);
      SplitQuiet(mem, S, F, pools, b, w, r, f, u, v);
      SplitShapes(S, b, w);
    }

    lemma AbsorbedLists(b: nat, r: nat, v: nat)
      requires Core() && CanAbsorb(S, b) && r == Next(S, b) && Next(S, r) in S && b !in L && r !in L && b + 1 < |mem|
      ensures ListedOk(mem[b + 1 := v], heads, slBitmap, flBitmap, Absorb(S, b), F - {r}, L, clock)
    {
      AbsorbLists(mem, heads, slBitmap, flBitmap, S, F, L, clock, b, r);
      AbsorbKeeps(S, pools, |mem|, b);
      ListedInFree(mem, heads, slBitmap, flBitmap, S, F, L, clock);
      hide ListedOk, Absorb;
      HeaderStepLists(mem, heads, slBitmap, flBitmap, Absorb(S, b), F - {r}, F - {r}, L, clock, b, v);
    }

    lemma BlockPositive(b: nat)
      requires Physical() && b in S
      ensures b >= NULL_BLOCK + 3
    {
      BlockFits(S, pools, |mem|, b);
    }

    lemma NextFacts(b: nat)
      requires Physical() && b in S && S[b].words > 0
      ensures 3 <= S[b].words < MAX_WORDS && b + 4 <= Next(S, b) < |mem| && b >= NULL_BLOCK + 3
      ensures Next(S, b) in S && S[Next(S, b)].pred == b
      ensures b !in odd ==> (Next(S, b) in Q <==> b in F) && (b in F ==> mem[Next(S, b)] == b)
    {
      BlockFits(S, pools, |mem|, b);
      if b !in odd { FlagsAt(mem, S, F, Q, odd, b); }
    }

    /** The block before b, when there is one. */
    lemma PredFacts(b: nat)
      requires Physical() && b in S
      ensures b >= NULL_BLOCK + 3
      ensures S[b].pred == 0 ==> b !in Q
      ensures S[b].pred != 0 ==> S[b].pred in S && S[S[b].pred].words > 0 && Next(S, S[b].pred) == b && S[b].pred < b
    {
      assert TileOk(S, pools, |mem|, b);
      assert EndOk(S, F, Q, b);
    }

    lemma ListedFacts(b: nat)
      requires Core() && b in L
      ensures b in S && b in F && S[b].words >= 3 && Next(S, b) !in L && b >= NULL_BLOCK + 3
      ensures S[b].pred !in L
    {
      AgreeFacts(S, F, L);
      BlockFits(S, pools, |mem|, b);
      PredFacts(b);
      if S[b].pred in L {
        BlockFits(S, pools, |mem|, S[b].pred);
      }
    }

    lemma FreeFacts(b: nat)
      requires Core() && b in F
      ensures b in S && S[b].words > 0
    {
      assert EndOk(S, F, Q, b);
    }

    /** The free blocks outside the lists are X, and nothing is in transit. */
    ghost predicate Only(X: set<nat>) reads this {
      Core() && odd == {} && F == L.Keys + X && X !! L.Keys
    }

    /** After a split both parts are announced. */
    lemma SettleFront(b: nat)
      requires Core() && odd == {b} && b in S && FlagOk(mem, S, F, Q, b)
      ensures PhysicalOk(mem, S, F, Q, pools, {})
    {
      Settled(mem, S, F, Q, pools, odd, b);
      assert odd - {b} == {};
    }

    lemma SplitFacts(S: Blocks, b: nat, w: nat)
      requires CanSplit(S, b, w) && Separate(S)
      ensures b + 1 + w !in S
      ensures var S2 := Split(S, b, w); var r, n := b + 1 + w, Next(S, b);
        && b in S2 && r in S2 && S2[b] == S[b].(words := w) && Next(S2, b) == r
        && S2[r] == Shape(S[b].words - w - 1, b, S[b].pool) && Next(S2, r) == n
    {
      var r := b + 1 + w;
      assert r in S ==> SepOk(S, b, r);
      SplitShapes(S, b, w);
    }

    lemma BlockSize(b: nat)
      requires Physical() && b in S
      ensures b + 1 < |mem| && SizeOf(mem[b + 1]) == S[b].words
      ensures FreeBit(mem[b + 1]) <==> b in F
      ensures PrevFreeBit(mem[b + 1]) <==> b in Q
    {
      SizeRead(mem, S, F, Q, b);
    }

    lemma KeyFacts()
      requires Core()
      ensures Separate(S) && 0 !in L && 0 !in S && L.Keys <= S.Keys && L.Keys <= F
    {
      if 0 in S { BlockFits(S, pools, |mem|, 0); }
      AgreeFacts(S, F, L);
    }

    /** block_trim_free */
    method BlockTrimFree(b: nat, w: nat)
      requires Only({b}) && b in S && 3 <= w <= S[b].words && Next(S, b) !in L
      modifies this`mem, this`heads, this`slBitmap, this`flBitmap, this`S, this`F, this`Q, this`L, this`clock, this`odd
      ensures Only({b}) && b in S
      ensures S[b].words == if old(S)[b].words >= w + 4 then w else old(S)[b].words
      ensures Quiet(old(Now()), Now(), {})
    {
      hide PhysicalOk, ListedOk, Quiet, SizeOf, FreeBit, PrevFreeBit;
      QuietSame(Now());
      BlockSize(b);
      if SizeOf(mem[b + 1]) >= w + 4 {
        CutFree(b, w);
      }
    }

    /** The rest of a free block is split off and listed. */
    method CutFree(b: nat, w: nat)
      requires Only({b}) && b in S && 3 <= w && w + 4 <= S[b].words && Next(S, b) !in L
      modifies this`mem, this`heads, this`slBitmap, this`flBitmap, this`S, this`F, this`Q, this`L, this`clock, this`odd
      ensures Only({b}) && b in S && S[b].words == w
      ensures Quiet(old(Now()), Now(), {})
    {
      hide PhysicalOk, ListedOk, Quiet, PayloadSame, Split, Absorb;
      hide Headers, Tiling, SizeOf, FreeBit, PrevFreeBit;
      NextFacts(b);
      KeyFacts();
      SplitFacts(S, b, w);
      ghost var v0 := Now();
      var r := BlockSplit(b, w);
      ghost var v1 := Now();
      var _ := LinkNext(b);
      ghost var v2 := Now();
      BlockSetPrevFree(r);
      ghost var v3 := Now();
      QuietTrans3(v0, v1, v2, v3, {b}, {b}, {}, {b});
      SettleFront(b);
      odd := {};
      BlockInsert(r);
      QuietTrans(v0, v3, Now(), {b}, {}, {b});
      QuietDrop(v0, Now(), b);
    }

    lemma AbsorbFacts(S: Blocks, b: nat)
      requires CanAbsorb(S, b) && Next(S, Next(S, b)) in S
      ensures var S2 := Absorb(S, b); var r := Next(S, b);
        && b in S2 && S2[b] == S[b].(words := S[b].words + S[r].words + 1) && Next(S2, b) == Next(S, r)
    {
      AbsorbShapes(S, b);
    }

    /** block_merge_prev: the block before b, when free, takes b in. */
    method BlockMergePrev(b: nat) returns (b2: nat)
      requires Only({b}) && b in S
      modifies this`mem, this`heads, this`slBitmap, this`flBitmap, this`S, this`F, this`Q, this`L, this`clock, this`odd
      ensures Only({b2}) && b2 in S && S[b2].pred !in L && b2 in F
      ensures S[b2].words > 0 && Next(S, b2) == old(Next(S, b))
      ensures b2 == (if b in old(Q) then old(S)[b].pred else b)
      ensures Quiet(old(Now()), Now(), {})
    {
      hide PhysicalOk, ListedOk, Quiet, PayloadSame, Split, Absorb, Headers, Tiling, SizeOf, FreeBit, PrevFreeBit;
      QuietSame(Now());
      BlockSize(b);
      KeyFacts();
      FreeFacts(b);
      PredFacts(b);
      b2 := b;
      if S[b].pred != 0 { NextFacts(S[b].pred); }
      if PrevFreeBit(mem[b + 1]) {
        ghost var v0 := Now();
        var prev := mem[b];
        assert prev in F - {b};
        ListedFacts(prev);
        NextFacts(b);
        BlockRemove(prev);
        ghost var v1 := Now();
        AbsorbFacts(S, prev);
        BlockAbsorb(prev, b);
        b2 := prev;
        QuietTrans(v0, v1, Now(), {}, {prev}, {prev});
        QuietDrop(v0, Now(), prev);
      }
    }

    /** block_merge_next: takes in the block behind b when that is free. When b is in use, it is in
        transit afterwards: the block behind still says that a free one precedes it. */
    method BlockMergeNext(b: nat)
      requires Core() && odd == {} && b in S && S[b].words > 0 && b !in L
      requires F - {b} == L.Keys
      modifies this`mem, this`heads, this`slBitmap, this`flBitmap, this`S, this`F, this`Q, this`L, this`clock, this`odd
      ensures Core() && F - {b} == L.Keys && b !in L && (b in F <==> b in old(F)) && F <= old(F)
      ensures old(Next(S, b)) in old(S) && b in S && S[b].pred == old(S)[b].pred && Next(S, b) in S && Next(S, b) !in L
      ensures var n := old(Next(S, b)); var merged := n in old(F);
        && S[b].words == (if merged then old(S)[b].words + old(S)[n].words + 1 else old(S)[b].words)
        && odd == (if merged && b !in F then {b} else {})
        && (!merged ==> S == old(S) && F == old(F) && L == old(L))
      ensures Quiet(old(Now()), Now(), {b}) && (b !in F ==> PayloadSame(old(mem), mem, old(S), b))
    {
      hide PhysicalOk, ListedOk, Quiet, PayloadSame, Split, Absorb, Headers, Tiling, SizeOf, FreeBit, PrevFreeBit;
      QuietSame(Now());
      QuietTrans(Now(), Now(), Now(), {}, {}, {b});
      PayloadRefl(mem, S, b);
      NextFacts(b);
      KeyFacts();
      var next := BlockNext(b);
      BlockSize(next);
      if FreeBit(mem[next + 1]) {
        ghost var v0 := Now();
        assert next in F - {b};
        ListedFacts(next);
        NextFacts(next);
        BlockRemove(next);
        ghost var v1 := Now();
        AbsorbFacts(S, b);
        PayloadUsed(v0, v1, b);
        BlockAbsorb(b, next);
        QuietTrans(v0, v1, Now(), {}, {b}, {b});
        PayloadTrans(v0.m, v1.m, mem, v1.S, b);
        NextFacts(b);
      }
    }

    lemma PayloadRefl(m: seq<nat>, S: Blocks, b: nat)
      requires b in S
      ensures PayloadSame(m, m, S, b)
    {
    }

    lemma PayloadTrans(m: seq<nat>, m2: seq<nat>, m3: seq<nat>, S: Blocks, b: nat)
      requires b in S
      ensures PayloadSame(m, m2, S, b) && PayloadSame(m2, m3, S, b) ==> PayloadSame(m, m3, S, b)
    {
    }

    lemma PayloadUsed(v: View, v2: View, b: nat)
      requires Quiet(v, v2, {}) && b in v.S && v.S[b].words > 0
      ensures b !in v.F ==> PayloadSame(v.m, v2.m, v.S, b)
    {
      if b !in v.F { assert QuietAt(v, v2, b); }
    }

    /** block_trim_used */
    method BlockTrimUsed(b: nat, w: nat)
      requires Only({}) && UsedIn(S, F, b) && 3 <= w <= S[b].words
      modifies this`mem, this`heads, this`slBitmap, this`flBitmap, this`S, this`F, this`Q, this`L, this`clock, this`odd
      ensures Only({}) && UsedIn(S, F, b)
      ensures S[b].words == if old(S)[b].words >= w + 4 then w else old(S)[b].words
      ensures Quiet(old(Now()), Now(), {b}) && PayloadSame(old(mem), mem, S, b)
    {
      hide PhysicalOk, ListedOk, Quiet, PayloadSame, SizeOf, FreeBit, PrevFreeBit;
      QuietSame(Now());
      QuietTrans(Now(), Now(), Now(), {}, {}, {b});
      PayloadRefl(mem, S, b);
      BlockSize(b);
      if SizeOf(mem[b + 1]) >= w + 4 {
        CutUsed(b, w);
      }
    }

    /** The rest of a block in use is split off, merged with what is free behind it, and listed. */
    method CutUsed(b: nat, w: nat)
      requires Valid() && UsedIn(S, F, b) && 3 <= w && w + 4 <= S[b].words
      modifies this`mem, this`heads, this`slBitmap, this`flBitmap, this`S, this`F, this`Q, this`L, this`clock, this`odd
      ensures Valid() && UsedIn(S, F, b) && S[b].words == w
      ensures Quiet(old(Now()), Now(), {b}) && PayloadSame(old(mem), mem, S, b)
    {
      hide PhysicalOk, ListedOk, Quiet, PayloadSame, Split, Absorb, Headers, Tiling, SizeOf, FreeBit, PrevFreeBit;
      NextFacts(b);
      KeyFacts();
      SplitFacts(S, b, w);
      ghost var v0 := Now();
      var r := BlockSplit(b, w);
      ghost var v1 := Now();
      BlockSetPrevUsed(r);
      ghost var v2 := Now();
      SettleFront(b);
      odd := {};
      BlockMergeNext(r);
      ghost var v3 := Now();
      hide Only;
      BlockInsert(r);
      AllListed(r);
      QuietTrimUsed(v0, v1, v2, v3, Now(), b, r);
    }

    lemma QuietTrimUsed(v0: View, v1: View, v2: View, v3: View, v4: View, b: nat, r: nat)
      requires Quiet(v0, v1, {b}) && Quiet(v1, v2, {}) && Quiet(v2, v3, {r}) && Quiet(v3, v4, {})
      requires r in v2.F && r in v3.F && UsedIn(v1.S, v1.F, b) && PayloadSame(v0.m, v1.m, v1.S, b)
      ensures Quiet(v0, v4, {b}) && UsedIn(v4.S, v4.F, b) && v4.S[b].words == v1.S[b].words
      ensures PayloadSame(v0.m, v4.m, v4.S, b)
    {
      QuietDrop(v2, v3, r);
      QuietTrans3(v1, v2, v3, v4, {}, {}, {}, {});
      QuietTrans(v0, v1, v4, {b}, {}, {b});
      assert QuietAt(v1, v4, b);
    }

    /** block_trim_free_leading: g words in front of the wanted part become a free block of their own. */
    method BlockTrimFreeLeading(b: nat, g: nat) returns (r: nat)
      requires Only({b}) && b in S && 4 <= g && Next(S, b) !in L && S[b].pred !in L
      modifies this`mem, this`heads, this`slBitmap, this`flBitmap, this`S, this`F, this`Q, this`L, this`clock, this`odd
      ensures Only({r}) && r in S && Next(S, r) !in L && r in F
      ensures r == if old(S)[b].words >= g + 4 then b + g else b
      ensures S[r].words == if old(S)[b].words >= g + 4 then old(S)[b].words - g else old(S)[b].words
      ensures Quiet(old(Now()), Now(), {})
    {
      hide PhysicalOk, ListedOk, Quiet, PayloadSame, Split, Absorb, Headers, Tiling, SizeOf, FreeBit, PrevFreeBit;
      QuietSame(Now());
      BlockSize(b);
      r := b;
      if SizeOf(mem[b + 1]) >= g + 4 {
        NextFacts(b);
        KeyFacts();
        var w := g - 1;
        SplitFacts(S, b, w);
        ghost var v0 := Now();
        r := BlockSplit(b, w);
        ghost var v1 := Now();
        BlockSetPrevFree(r);
        ghost var v2 := Now();
        var _ := LinkNext(b);
        QuietTrans3(v0, v1, v2, Now(), {b}, {}, {b}, {b});
        ghost var v3 := Now();
        SettleFront(b);
        odd := {};
        BlockInsert(b);
        QuietTrans(v0, v3, Now(), {b}, {}, {b});
        QuietDrop(v0, Now(), b);
      }
    }

    /** No free block is in a list that the search for w words covers. */
    ghost predicate NoFit(w: nat) reads this {
      forall x {:trigger x in L} | x in L && x in S :: ClassOf(8 * S[x].words) < SearchClass(8 * w)
    }

    /** Block b is in the first list that the search for w words comes to: no list with smaller sizes has one for it. */
    ghost predicate GoodFit(b: nat, w: nat) reads this {
      && b in S && SearchClass(8 * w) <= ClassOf(8 * S[b].words)
      && forall x {:trigger x in L} | x in L && x in S && SearchClass(8 * w) <= ClassOf(8 * S[x].words) ::
          ClassOf(8 * S[b].words) <= ClassOf(8 * S[x].words)
    }

    /** block_locate_free: takes a large enough block off its list, if the search finds one; else 0. */
    method BlockLocateFree(w: nat) returns (b: nat)
      requires Only({})
      modifies this`mem, this`heads, this`slBitmap, this`flBitmap, this`L
      ensures b == 0 <==> w == 0 || old(NoFit(w))
      ensures b == 0 ==> Only({}) && mem == old(mem) && L == old(L)
      ensures b != 0 ==> w > 0 && b in S && b in old(L) && Only({b}) && w <= S[b].words && old(GoodFit(b, w))
      ensures b != 0 ==> Next(S, b) !in L && S[b].pred !in L && S[b].words > 0
      ensures Quiet(old(Now()), Now(), {})
    {
      hide PhysicalOk, ListedOk, Quiet, PayloadSame, Split, Absorb, Headers, Tiling, SizeOf, FreeBit, PrevFreeBit;
      hide Bitmaps, ClassOf, MappingInsert, MappingSearch, SearchClass;
      QuietSame(Now());
      b := 0;
      if w > 0 {
        var (fl, sl) := MappingSearch(8 * w);
        SearchPosition(8 * w, fl, sl);
        if fl < FL_INDEX_COUNT {
          ListedBitmaps(mem, heads, slBitmap, flBitmap, S, F, L, clock);
          var found, fl2, sl2 := SearchSuitable(heads, NULL_BLOCK, slBitmap, flBitmap, fl, sl);
          if found {
            var c := 32 * fl2 + sl2;
            FoundFits(w, c);
            b := heads[c];
            ListedFacts(b);
            RemoveFreeBlock(b, fl2, sl2);
          } else {
            NoneFits(w);
          }
        } else {
          OutOfRange(w);
        }
      }
    }

    lemma FoundFits(w: nat, c: nat)
      requires Core() && c < |heads| == CLASSES && heads[c] != NULL_BLOCK && SearchClass(8 * w) <= c
      requires forall d: nat | SearchClass(8 * w) <= d < c :: heads[d] == NULL_BLOCK
      ensures GoodFit(heads[c], w)
      ensures var b := heads[c]; b in L && b in S && L[b].cls == c && w <= S[b].words && b != 0 && !NoFit(w)
    {
      hide PhysicalOk, ClassOf, SearchClass;
      var b := heads[c];
      assert HeadOk(L, heads, c);
      AgreeAt(S, F, L, b);
      SearchSound(8 * w, 8 * S[b].words);
      KeyFacts();
      forall x | x in L && x in S && SearchClass(8 * w) <= ClassOf(8 * S[x].words)
        ensures c <= ClassOf(8 * S[x].words)
      {
        AgreeAt(S, F, L, x);
        HeadOfListed(L, heads, clock, x);
        assert heads[L[x].cls] != NULL_BLOCK;
      }
    }

    lemma NoneFits(w: nat)
      requires Core() && forall c: nat | SearchClass(8 * w) <= c < 800 :: heads[c] == NULL_BLOCK
      ensures NoFit(w)
    {
      hide PhysicalOk, ClassOf, SearchClass;
      forall x | x in L && x in S ensures ClassOf(8 * S[x].words) < SearchClass(8 * w) {
        AgreeAt(S, F, L, x);
        HeadOfListed(L, heads, clock, x);
        assert heads[L[x].cls] != NULL_BLOCK;
      }
    }

    lemma OutOfRange(w: nat)
      requires Core() && SearchClass(8 * w) >= CLASSES
      ensures NoFit(w)
    {
      hide PhysicalOk, ClassOf, SearchClass;
      forall x | x in L && x in S ensures ClassOf(8 * S[x].words) < SearchClass(8 * w) {
        AgreeAt(S, F, L, x);
        ClassInRange(8 * S[x].words);
      }
    }

    /** block_prepare_used: keeps w words of the located block and hands it out. */
    method BlockPrepareUsed(b: nat, w: nat) returns (p: nat)
      requires if b == 0 then Only({}) else Only({b}) && b in S && 3 <= w <= S[b].words && Next(S, b) !in L
      modifies this`mem, this`heads, this`slBitmap, this`flBitmap, this`S, this`F, this`Q, this`L, this`clock, this`odd
      ensures Only({})
      ensures b == 0 ==> p == 0 && unchanged(this)
      ensures b != 0 ==> p == 8 * (b + 2) && UsedIn(S, F, b) && w <= S[b].words < w + 4
      ensures Quiet(old(Now()), Now(), {b})
    {
      hide PhysicalOk, ListedOk, Quiet, PayloadSame, Split, Absorb, Headers, Tiling, SizeOf, FreeBit, PrevFreeBit;
      QuietSame(Now());
      QuietTrans(Now(), Now(), Now(), {}, {}, {b});
      p := 0;
      if b != 0 {
        ghost var v0 := Now();
        BlockTrimFree(b, w);
        ghost var v1 := Now();
        MarkAsUsed(b);
        QuietTrans(v0, v1, Now(), {}, {b}, {b});
        p := 8 * (b + 2);
      }
    }

    /** What holds between calls: every free block is listed. */
    ghost predicate Valid() reads this { Only({}) }

    /** tlsf_malloc */
    method Malloc(size: nat) returns (p: nat)
      requires Valid() && size < SIZE_RANGE
      modifies this`mem, this`heads, this`slBitmap, this`flBitmap, this`S, this`F, this`Q, this`L, this`clock, this`odd
      ensures Valid()
      ensures p == 0 <==> AdjustRequest(size, 8) == 0 || old(NoFit(AdjustRequest(size, 8) / 8))
      ensures p == 0 ==> mem == old(mem) && S == old(S) && F == old(F) && L == old(L)
      ensures p != 0 ==> Handed(old(Now()), Now(), p, AdjustRequest(size, 8))
      ensures p != 0 ==> old(GoodFit(BlockOf(p), AdjustRequest(size, 8) / 8))
      ensures Quiet(old(Now()), Now(), if p == 0 then {} else {BlockOf(p)})
    {
      hide PhysicalOk, ListedOk, Quiet, PayloadSame, Split, Absorb, Headers, Tiling, SizeOf, FreeBit, PrevFreeBit;
      hide AdjustRequest, UsedIn;
      KeyFacts();
      AdjustServes(size);
      AdjustLarge(size);
      var adjust := AdjustRequest(size, 8);
      ghost var v0 := Now();
      var b := BlockLocateFree(adjust / 8);
      ghost var v1 := Now();
      p := BlockPrepareUsed(b, adjust / 8);
      if b != 0 {
        QuietTrans(v0, v1, Now(), {}, {b}, {b});
        QuietFree(v0, v1, b);
        HandedIs(v0, Now(), b, p, adjust);
      }
    }

    /** tlsf_memalign, for alignments below 2^63. */
    method Memalign(align: nat, size: nat, ghost k: nat) returns (p: nat)
      requires Valid() && size < SIZE_RANGE && align == Pow2(k) && k < 63
      modifies this`mem, this`heads, this`slBitmap, this`flBitmap, this`S, this`F, this`Q, this`L, this`clock, this`odd
      ensures Valid()
      ensures p == 0 <==> AlignedRequest(align, size) == 0 || old(NoFit(AlignedRequest(align, size) / 8))
      ensures p == 0 ==> mem == old(mem) && S == old(S) && F == old(F) && L == old(L)
      ensures p != 0 ==> Handed(old(Now()), Now(), p, AdjustRequest(size, 8)) && p % align == 0
      ensures Quiet(old(Now()), Now(), if p == 0 then {} else {BlockOf(p)})
    {
      hide PhysicalOk, ListedOk, Quiet, PayloadSame, Split, Absorb, Headers, Tiling, SizeOf, FreeBit, PrevFreeBit;
      hide AdjustRequest, UsedIn, Pow2, AlignedStart;
      KeyFacts();
      AdjustServes(size);
      AdjustLarge(size);
      var adjust := AdjustRequest(size, 8);
      AlignedServes(align, size, k);
      var alignedSize := AlignedRequest(align, size);
      ghost var v0 := Now();
      var b := BlockLocateFree(alignedSize / 8);
      ghost var v1 := Now();
      QuietSame(v1);
      ghost var start: nat := 0;
      if b != 0 {
        var ptr := 8 * (b + 2);
        var aligned := AlignedStart(ptr, align);
        StartAligned(b, align, k);
        start := aligned;
        var gap := aligned - ptr;
        GapLeaves(align, size, k, gap, S[b].words);
        if gap != 0 {
          b := BlockTrimFreeLeading(b, gap / 8);
        }
      }
      ghost var v2 := Now();
      QuietTrans(v0, v1, v2, {}, {}, {});
      p := BlockPrepareUsed(b, adjust / 8);
      if b != 0 {
        assert p == start;
        QuietTrans(v0, v2, Now(), {}, {b}, {b});
        QuietFree(v0, v2, b);
        HandedIs(v0, Now(), b, p, adjust);
      }
    }

    /** A pointer that malloc has handed out and that has not been freed. */
    ghost predicate Live(p: nat) reads this {
      p >= 16 && p % 8 == 0 && UsedIn(S, F, BlockOf(p))
    }

    /** tlsf_free */
    method Free(p: nat)
      requires Valid() && (p != 0 ==> Live(p))
      modifies this`mem, this`heads, this`slBitmap, this`flBitmap, this`S, this`F, this`Q, this`L, this`clock, this`odd
      ensures Valid()
      ensures p == 0 ==> unchanged(this)
      ensures p != 0 ==> !UsedIn(S, F, BlockOf(p))
      ensures Quiet(old(Now()), Now(), if p == 0 then {} else {BlockOf(p)})
    {
      hide Quiet, Valid;
      QuietSame(Now());
      if p != 0 {
        FreeBlock(p / 8 - 2);
      }
    }

    method FreeBlock(b: nat)
      requires Valid() && UsedIn(S, F, b)
      modifies this`mem, this`heads, this`slBitmap, this`flBitmap, this`S, this`F, this`Q, this`L, this`clock, this`odd
      ensures Valid() && !UsedIn(S, F, b)
      ensures Quiet(old(Now()), Now(), {b})
    {
      hide PhysicalOk, ListedOk, Quiet, PayloadSame, Split, Absorb, Headers, Tiling, SizeOf, FreeBit, PrevFreeBit, Only;
      ValidIs();
      KeyFacts();
      ghost var v0 := Now();
      MarkAsFree(b);
      OneLoose(b);
      ghost var v1 := Now();
      MergeAndList(b);
      QuietTrans(v0, v1, Now(), {b}, {}, {b});
      QuietStaysFree(v1, Now(), b);
    }

    /** A free block that is on no list is merged with its neighbours and listed. */
    method MergeAndList(b: nat)
      requires Only({b}) && b in S
      modifies this`mem, this`heads, this`slBitmap, this`flBitmap, this`S, this`F, this`Q, this`L, this`clock, this`odd
      ensures Valid() && Quiet(old(Now()), Now(), {})
    {
      hide PhysicalOk, ListedOk, Quiet, PayloadSame, Split, Absorb, Headers, Tiling, SizeOf, FreeBit, PrevFreeBit;
      ghost var v1 := Now();
      var b2 := BlockMergePrev(b);
      ghost var v2 := Now();
      BlockMergeNext(b2);
      ghost var v3 := Now();
      hide Only;
      BlockInsert(b2);
      QuietDrop(v2, v3, b2);
      QuietTrans3(v1, v2, v3, Now(), {}, {}, {}, {});
      AllListed(b2);
    }

    lemma ValidIs()
      requires Valid()
      ensures Core() && odd == {} && F == L.Keys
    {
      hide PhysicalOk, ListedOk;
    }

    lemma OneLoose(b: nat)
      requires Core() && odd == {} && F == L.Keys + {b} && b !in L
      ensures Only({b})
    {
      hide PhysicalOk, ListedOk;
    }

    lemma AllListed(b: nat)
      requires Core() && odd == {} && b in L && F - {b} == L.Keys - {b} && b in F
      ensures Valid()
    {
      hide PhysicalOk, ListedOk;
      assert F == (F - {b}) + {b};
    }

    /** The owner of a live block stores a word in it. */
    method Store(p: nat, i: nat, v: nat)
      requires Valid() && Live(p) && i < S[BlockOf(p)].words
      modifies this`mem
      ensures Valid()
      ensures p / 8 + i < |old(mem)| && mem == old(mem)[p / 8 + i := v]
      ensures Quiet(old(Now()), Now(), {BlockOf(p)})
    {
      BlockFits(S, pools, |mem|, BlockOf(p));
      StoreKeeps(mem[p / 8 + i := v], BlockOf(p));
      mem := mem[p / 8 + i := v];
    }

    lemma StoreKeeps(m: seq<nat>, b: nat)
      requires Core() && UsedIn(S, F, b) && WritesOnly(mem, m, S, b)
      ensures PhysicalOk(m, S, F, Q, pools, odd) && ListedOk(m, heads, slBitmap, flBitmap, S, F, L, clock)
      ensures Quiet(Now(), View(m, S, F), {b})
    {
      AgreeFacts(S, F, L);
      PayloadWrite(mem, m, S, F, Q, odd, L, b);
      hide Tiling, Headers, Flags, Ends, Lists, Bitmaps, Agree, Coalesced, LinksStored, Quiet;
    }

    /** tlsf_realloc when the block itself, or with the free one behind it, is large enough. */
    method ReallocInPlace(b: nat, adjust: nat)
      requires Valid() && UsedIn(S, F, b) && 3 <= adjust
      requires adjust > S[b].words ==> Next(S, b) in F && adjust <= S[b].words + S[Next(S, b)].words + 1
      modifies this`mem, this`heads, this`slBitmap, this`flBitmap, this`S, this`F, this`Q, this`L, this`clock, this`odd
      ensures Valid() && UsedIn(S, F, b) && adjust <= S[b].words < adjust + 4
      ensures Quiet(old(Now()), Now(), {b})
      ensures PrefixSame(old(mem), old(S), mem, S, b)
    {
      hide PhysicalOk, ListedOk, Quiet, PayloadSame, Split, Absorb, Headers, Tiling, SizeOf, FreeBit, PrevFreeBit;
      KeyFacts();
      BlockSize(b);
      QuietSame(Now());
      PayloadRefl(mem, S, b);
      ghost var v0 := Now();
      QuietTrans(v0, v0, v0, {}, {}, {b});
      if adjust > SizeOf(mem[b + 1]) {
        BlockMergeNext(b);
        ghost var v1 := Now();
        MarkAsUsed(b);
        PayloadLonger(v0.m, v1.m, mem, v0.S, v1.S, b);
        QuietTrans(v0, v1, Now(), {b}, {b}, {b});
        assert odd == {};
      }
      ghost var v2 := Now();
      BlockTrimUsed(b, adjust);
      PrefixFrom(v0.m, v2.m, mem, v0.S, S, b);
      QuietTrans(v0, v2, Now(), {b}, {b}, {b});
    }

    /** tlsf_realloc when the contents move to a new block. */
    method ReallocMove(p: nat, size: nat) returns (q: nat)
      requires Valid() && Live(p) && size < SIZE_RANGE && AdjustRequest(size, 8) > 8 * S[BlockOf(p)].words
      modifies this`mem, this`heads, this`slBitmap, this`flBitmap, this`S, this`F, this`Q, this`L, this`clock, this`odd
      ensures Valid()
      ensures q == 0 <==> old(NoFit(AdjustRequest(size, 8) / 8))
      ensures q == 0 ==> mem == old(mem) && S == old(S) && F == old(F) && L == old(L)
      ensures q != 0 ==> Handed(old(Now()), Now(), q, AdjustRequest(size, 8)) && !UsedIn(S, F, BlockOf(p))
      ensures q != 0 ==> BytesSame(old(mem), p, mem, q, Least(8 * old(S)[BlockOf(p)].words, size))
      ensures Quiet(old(Now()), Now(), if q == 0 then {} else {BlockOf(p), BlockOf(q)})
    {
      hide PhysicalOk, ListedOk, Quiet, PayloadSame, Split, Absorb, Headers, Tiling, SizeOf, FreeBit, PrevFreeBit;
      hide AdjustRequest, BytesSame, WordsCopied;
      var b := p / 8 - 2;
      BlockSize(b);
      var cursize := 8 * SizeOf(mem[b + 1]);
      ghost var v0 := Now();
      q := Malloc(size);
      if q != 0 {
        ghost var nb := BlockOf(q);
        ghost var v1 := Now();
        var minsize := if cursize < size then cursize else size;
        QuietOne(v0, v1, b, nb);
        CopyFits(v0, v1, p, q, minsize, AdjustRequest(size, 8));
        CopyKeeps(p, q, minsize);
        mem := WordsCopied(mem, q / 8, p / 8, minsize);
        ghost var v2 := Now();
        Free(p);
        MoveQuiet(v0, v1, v2, Now(), b, nb);
        MoveBytes(v0, v1, v2, Now(), p, q, minsize);
      }
    }

    lemma CopyFits(v: View, v1: View, p: nat, q: nat, n: nat, adjust: nat)
      requires Valid() && v1 == Now() && Handed(v, v1, q, adjust) && Live(p) && UsedIn(v.S, v.F, BlockOf(p))
      requires v.S[BlockOf(p)].words == S[BlockOf(p)].words && adjust > 8 * S[BlockOf(p)].words
      requires n <= 8 * S[BlockOf(p)].words
      ensures p / 8 + (n + 7) / 8 <= |mem| && q / 8 + (n + 7) / 8 <= |mem|
      ensures BlockOf(p) != BlockOf(q) && (n + 7) / 8 <= S[BlockOf(q)].words && (n + 7) / 8 <= S[BlockOf(p)].words
    {
      BlockFits(S, pools, |mem|, BlockOf(p));
      BlockFits(S, pools, |mem|, BlockOf(q));
    }

    lemma CopyKeeps(p: nat, q: nat, n: nat)
      requires Valid() && Live(p) && Live(q) && p / 8 + (n + 7) / 8 <= |mem|
      requires (n + 7) / 8 <= S[BlockOf(q)].words
      ensures var m := WordsCopied(mem, q / 8, p / 8, n);
        && PhysicalOk(m, S, F, Q, pools, odd) && ListedOk(m, heads, slBitmap, flBitmap, S, F, L, clock)
        && Quiet(Now(), View(m, S, F), {BlockOf(q)})
    {
      hide PhysicalOk, ListedOk, Quiet;
      StoreKeeps(WordsCopied(mem, q / 8, p / 8, n), BlockOf(q)) by {
        CopyWrites(mem, S, p, q, n);
      }
    }

    /** The block of p, or with the free one behind it, has w words. */
    ghost predicate FitsInPlace(p: nat, w: nat) reads this {
      var b := BlockOf(p);
      b in S && (w <= S[b].words || (Next(S, b) in F && Next(S, b) in S && w <= S[b].words + S[Next(S, b)].words + 1))
    }

    /** tlsf_realloc, for sizes that are zero or within the allocator's range. */
    method Realloc(p: nat, size: nat) returns (q: nat)
      requires Valid() && (p != 0 ==> Live(p)) && size < SIZE_RANGE
      requires p != 0 && size != 0 ==> AdjustRequest(size, 8) != 0
      modifies this`mem, this`heads, this`slBitmap, this`flBitmap, this`S, this`F, this`Q, this`L, this`clock, this`odd
      ensures Valid()
      ensures p != 0 && size == 0 ==> q == 0 && !UsedIn(S, F, BlockOf(p)) && Quiet(old(Now()), Now(), {BlockOf(p)})
      ensures p == 0 ==> (q == 0 <==> AdjustRequest(size, 8) == 0 || old(NoFit(AdjustRequest(size, 8) / 8)))
      ensures p != 0 && size != 0 ==> (q == p <==> old(FitsInPlace(p, AdjustRequest(size, 8) / 8)))
      ensures p != 0 && size != 0 ==>
        (q == 0 <==> !old(FitsInPlace(p, AdjustRequest(size, 8) / 8)) && old(NoFit(AdjustRequest(size, 8) / 8)))
      ensures q == 0 && (p == 0 || size != 0) ==> mem == old(mem) && S == old(S) && F == old(F) && L == old(L)
      ensures q != 0 ==> Live(q) && AdjustRequest(size, 8) <= 8 * S[BlockOf(q)].words < AdjustRequest(size, 8) + 32
      ensures q != 0 && q != p ==> !old(UsedIn(S, F, BlockOf(q))) && !UsedIn(S, F, BlockOf(p))
      ensures q != 0 && p != 0 && size <= SIZE_RANGE - 8 ==> BytesSame(old(mem), p, mem, q, Least(8 * old(S)[BlockOf(p)].words, size))
      ensures q != 0 ==> Quiet(old(Now()), Now(), {BlockOf(p), BlockOf(q)})
    {
      hide PhysicalOk, ListedOk, Quiet, PayloadSame, Split, Absorb, Headers, Tiling, SizeOf, FreeBit, PrevFreeBit;
      hide AdjustRequest, BytesSame, PrefixSame;
      KeyFacts();
      q := 0;
      if p != 0 && size == 0 {
        Free(p);
      } else if p == 0 {
        ghost var v0 := Now();
        q := Malloc(size);
        NullNotUsed(0);
        if q != 0 { QuietMore(v0, Now(), {BlockOf(q)}, {BlockOf(p), BlockOf(q)}); }
      } else {
        ghost var v0 := Now();
        var b := p / 8 - 2;
        NextFacts(b);
        var next := BlockNext(b);
        BlockSize(b);
        BlockSize(next);
        var cursize := SizeOf(mem[b + 1]);
        var combined := cursize + SizeOf(mem[next + 1]) + 1;
        AdjustServes(size);
        AdjustLarge(size);
        var adjust := AdjustRequest(size, 8) / 8;
        if adjust > cursize && (!FreeBit(mem[next + 1]) || adjust > combined) {
          q := ReallocMove(p, size);
        } else {
          ReallocInPlace(b, adjust);
          q := p;
          QuietMore(v0, Now(), {b}, {BlockOf(p), BlockOf(q)});
          if size <= SIZE_RANGE - 8 {
            PrefixBytes(v0.m, v0.S, mem, S, p, size);
          }
        }
      }
    }

    lemma NullNotUsed(x: nat)
      requires Core()
      ensures !UsedIn(S, F, 0)
    {
      KeyFacts();
    }

    /** Memory that a pool may be built in: word-aligned memory that no block occupies. */
    ghost predicate Usable(memory: nat, bytes: nat) reads this {
      memory % 8 == 0 ==>
        && NULL_BLOCK + 4 <= memory / 8 && memory / 8 + bytes / 8 <= |mem|
        && Fresh(S, memory / 8 - 1, memory / 8 - 1 + bytes / 8)
    }

    /** tlsf_add_pool, for pools that are not of exactly block_size_max bytes. */
    method AddPool(memory: nat, bytes: nat) returns (pool: nat)
      requires Valid() && bytes < SIZE_RANGE && Usable(memory, bytes) && PoolBytes(bytes) != BLOCK_SIZE_MAX
      modifies this`mem, this`heads, this`slBitmap, this`flBitmap, this`S, this`F, this`Q, this`L, this`clock, this`pools
      ensures Valid() && |mem| == |old(mem)|
      ensures pool == if memory % 8 == 0 && 40 <= bytes < BLOCK_SIZE_MAX + 24 then memory else 0
      ensures pool == 0 ==> unchanged(this)
      ensures pool != 0 ==> var b, w := memory / 8 - 1, bytes / 8 - 2;
        && S == WithPool(old(S), b, w) && F == old(F) + {b} && pools == old(pools)[b := b + 1 + w]
      ensures Quiet(old(Now()), Now(), {})
    {
      hide PhysicalOk, ListedOk, Quiet, Headers, Tiling, Flags, Ends, Inserted, SizeOf, FreeBit, PrevFreeBit, Header;
      hide SetSize, SetFree, SetUsed, SetPrevFree, SetPrevUsed, PoolBytes, MappingInsert, ClassOf, WithPool, PoolWritten, SetBit;
      QuietSame(Now());
      pool := 0;
      var poolBytes := PoolBytes(bytes);
      PoolBytesIs(bytes);
      if memory % 8 != 0 || poolBytes < BLOCK_SIZE_MIN || poolBytes > BLOCK_SIZE_MAX {
        return;
      }
      var b := memory / 8 - 1;
      var w := poolBytes / 8;
      BuildPool(b, w);
      pool := memory;
    }

    /** The writes of tlsf_add_pool. */
    method BuildPool(b: nat, w: nat)
      requires Valid() && Fresh(S, b, b + 2 + w) && NULL_BLOCK + 3 <= b && 3 <= w < MAX_WORDS && b + 2 + w < |mem|
      modifies this`mem, this`heads, this`slBitmap, this`flBitmap, this`S, this`F, this`Q, this`L, this`clock, this`pools
      ensures Valid() && |mem| == |old(mem)|
      ensures S == WithPool(old(S), b, w) && F == old(F) + {b} && pools == old(pools)[b := b + 1 + w]
      ensures Quiet(old(Now()), Now(), {})
    {
      hide PhysicalOk, ListedOk, Quiet, Inserted, Header, MappingInsert, ClassOf, WithPool, SetBit, PoolMemory;
      var (fl, sl) := MappingInsert(8 * w);
      ClassPosition(8 * w, fl, sl);
      PoolFits(b, w);
      PoolAll(b, w, fl, sl);
      WritePool(b, w, fl, sl);
      EnterPool(b, w, Inserted(L, old(heads), clock, b, 32 * fl + sl));
    }

    ghost method EnterPool(b: nat, w: nat, L2: map<nat, Link>)
      requires b !in L && L2.Keys == L.Keys + {b} && F == L.Keys && odd == {}
      requires PhysicalOk(mem, WithPool(S, b, w), F + {b}, Q - {b} + {b + 1 + w}, pools[b := b + 1 + w], {})
      requires ListedOk(mem, heads, slBitmap, flBitmap, WithPool(S, b, w), F + {b}, L2, clock + 1)
      modifies this`S, this`F, this`Q, this`L, this`clock, this`pools
      ensures Valid() && S == WithPool(old(S), b, w) && F == old(F) + {b} && pools == old(pools)[b := b + 1 + w]
    {
      hide PhysicalOk, ListedOk, WithPool, Valid;
      L, clock, S, F, Q, pools := L2, clock + 1, WithPool(S, b, w), F + {b}, Q - {b} + {b + 1 + w}, pools[b := b + 1 + w];
      IsValid();
    }

    lemma IsValid()
      requires Core() && odd == {} && F == L.Keys
      ensures Valid()
    {
      hide PhysicalOk, ListedOk;
    }

    method WritePool(b: nat, w: nat, fl: nat, sl: nat)
      requires 3 <= w && b + 2 + w < |mem| && |heads| == CLASSES && |slBitmap| == 25 && fl < 25 && sl < 32
      requires heads[32 * fl + sl] + 3 < |mem|
      modifies this`mem, this`heads, this`slBitmap, this`flBitmap
      ensures mem == PoolMemory(old(mem), b, w, old(heads)[32 * fl + sl])
      ensures heads == old(heads)[32 * fl + sl := b]
      ensures slBitmap == old(slBitmap)[fl := SetBit(old(slBitmap)[fl], sl)] && flBitmap == SetBit(old(flBitmap), fl)
    {
      hide Header, SetBit;
      WriteFreeHeader(b, w);
      InsertFreeBlock(b, fl, sl);
      var next := b + 1 + w;
      mem := mem[next := b];
      WriteSentinelHeader(next);
    }

    /** The memory once tlsf_add_pool is done. */
    ghost function PoolMemory(m: seq<nat>, b: nat, w: nat, cur: nat): (m2: seq<nat>)
      requires w >= 3 && b + 2 + w < |m| && cur + 3 < |m|
      ensures |m2| == |m|
    {
      m[b + 1 := Header(w, true, false)][b + 2 := cur][b + 3 := NULL_BLOCK][cur + 3 := b][b + 1 + w := b][b + 2 + w := Header(0, false, true)]
    }

    lemma PoolAll(b: nat, w: nat, fl: nat, sl: nat)
      requires Valid() && Fresh(S, b, b + 2 + w) && NULL_BLOCK + 3 <= b && 3 <= w < MAX_WORDS && b + 2 + w < |mem|
      requires fl < 25 && sl < 32 && 32 * fl + sl == ClassOf(8 * w)
      ensures |slBitmap| == 25 && |heads| == CLASSES && b !in L
      ensures var c := 32 * fl + sl; var cur := heads[c];
        var S2, F2, Q2, pools2 := WithPool(S, b, w), F + {b}, Q - {b} + {b + 1 + w}, pools[b := b + 1 + w];
        && cur + 3 < |mem|
        && var m := PoolMemory(mem, b, w, cur);
        && PhysicalOk(m, S2, F2, Q2, pools2, {})
        && ListedOk(m, heads[c := b], slBitmap[fl := SetBit(slBitmap[fl], sl)], SetBit(flBitmap, fl), S2, F2, Inserted(L, heads, clock, b, c), clock + 1)
        && Quiet(Now(), View(m, S2, F2), {})
        && Inserted(L, heads, clock, b, c).Keys == L.Keys + {b}
    {
      hide PhysicalOk, ListedOk, Quiet, Inserted, Header, SetBit, ClassOf, WithPool, PoolWritten, Agree;
      PoolReady(b, w);
      InsertListed(PoolWritten(mem, b, w), heads, slBitmap, flBitmap, WithPool(S, b, w), F + {b}, L, clock, pools[b := b + 1 + w], b, fl, sl);
      PoolFits(b, w);
      ListedShape(mem, heads, slBitmap, flBitmap, S, F, L, clock);
      var mP := PoolWritten(mem, b, w);
      var S2, F2, Q2, pools2 := WithPool(S, b, w), F + {b}, Q - {b} + {b + 1 + w}, pools[b := b + 1 + w];
      ListedAgree(mP, heads, slBitmap, flBitmap, S2, F2, L, clock);
      PoolPhysical(mem, S, F, Q, pools, b, w);
      PoolQuiet(mem, S, F, b, w);
      PoolShape(S, b, w);
      var current := heads[32 * fl + sl];
      if current in L { HeadApart(b, w, current); }
      InsertPhysical(mP, S2, F2, Q2, L, pools2, {}, b, current);
      QuietUntouched(mP, mP[b + 2 := current][b + 3 := NULL_BLOCK][current + 3 := b], S2, F2);
      PoolOrder(mem, b, w, Header(w, true, false), Header(0, false, true), current);
      PoolWrittenIs(mem, b, w);
      QuietTrans(Now(), View(mP, S2, F2), View(PoolMemory(mem, b, w, current), S2, F2), {}, {}, {});
    }

    /** The size word of a new pool's block, over whatever was in memory. */
    method WriteFreeHeader(b: nat, w: nat)
      requires b + 1 < |mem|
      modifies this`mem
      ensures mem == old(mem)[b + 1 := Header(w, true, false)]
    {
      hide Header, SetSize, SetFree, SetPrevUsed, FreeBit, PrevFreeBit;
      var h := mem[b + 1];
      HeaderSized(h, w);
      HeaderSets(w, FreeBit(h), PrevFreeBit(h));
      HeaderSets(w, true, PrevFreeBit(h));
      mem := mem[b + 1 := SetSize(h, w)];
      mem := mem[b + 1 := SetFree(mem[b + 1])];
      mem := mem[b + 1 := SetPrevUsed(mem[b + 1])];
    }

    method WriteSentinelHeader(b: nat)
      requires b + 1 < |mem|
      modifies this`mem
      ensures mem == old(mem)[b + 1 := Header(0, false, true)]
    {
      hide Header, SetSize, SetUsed, SetPrevFree, FreeBit, PrevFreeBit;
      var h := mem[b + 1];
      HeaderSized(h, 0);
      HeaderSets(0, FreeBit(h), PrevFreeBit(h));
      HeaderSets(0, false, PrevFreeBit(h));
      mem := mem[b + 1 := SetSize(h, 0)];
      mem := mem[b + 1 := SetUsed(mem[b + 1])];
      mem := mem[b + 1 := SetPrevFree(mem[b + 1])];
    }

    lemma PoolFits(b: nat, w: nat)
      requires Physical() && Fresh(S, b, b + 2 + w) && NULL_BLOCK + 3 <= b && 3 <= w < MAX_WORDS && b + 2 + w < |mem|
      ensures b !in S && b + 1 + w !in S && b !in pools
    {
      PoolKeeps(S, pools, |mem|, b, w);
    }

    /** The new pool's block, before it is on its list. */
    lemma PoolReady(b: nat, w: nat)
      requires Core() && odd == {} && Fresh(S, b, b + 2 + w) && NULL_BLOCK + 3 <= b && 3 <= w < MAX_WORDS && b + 2 + w < |mem|
      ensures b !in L && b + 1 + w !in L && 0 !in L && |PoolWritten(mem, b, w)| == |mem|
      ensures var S2 := WithPool(S, b, w);
        && ListedOk(PoolWritten(mem, b, w), heads, slBitmap, flBitmap, S2, F + {b}, L, clock)
        && Tiling(S2, pools[b := b + 1 + w], |mem|)
        && b in S2 && S2[b].words == w > 0 && S2[b].pred == 0 && Next(S2, b) !in L
    {
      PoolFits(b, w);
      KeyFacts();
      PoolKeeps(S, pools, |mem|, b, w);
      hide PhysicalOk, Tiling, ClassOf;
      PoolLists(mem, heads, slBitmap, flBitmap, S, F, L, clock, b, w);
      PoolShape(S, b, w);
    }

    lemma HeadApart(b: nat, w: nat, cur: nat)
      requires Core() && odd == {} && Fresh(S, b, b + 2 + w) && cur in L
      ensures cur + 3 <= b || b + 2 + w < cur + 3
    {
      ListedFacts(cur);
      NextFacts(cur);
      assert Next(S, cur) <= b || b + 2 + w <= cur;
    }

    lemma PoolShape(S: Blocks, b: nat, w: nat)
      ensures var S2 := WithPool(S, b, w); b in S2 && S2[b] == Shape(w, 0, b) && Next(S2, b) == b + 1 + w
      ensures b + 1 + w in WithPool(S, b, w)
    {
    }

    lemma PoolWrittenIs(m: seq<nat>, b: nat, w: nat)
      requires b + 2 + w < |m|
      ensures PoolWritten(m, b, w) == m[b + 1 := Header(w, true, false)][b + 1 + w := b][b + 2 + w := Header(0, false, true)]
    {
    }

    /** tlsf_create, control_construct */
    constructor (memory: seq<nat>, heads0: seq<nat>, slBitmap0: seq<word>)
      requires NULL_BLOCK + 3 < |memory| && |heads0| == CLASSES && |slBitmap0| == FL_INDEX_COUNT
      ensures Valid() && S == map[] && pools == map[] && |mem| == |memory|
    {
      mem := memory[NULL_BLOCK + 2 := NULL_BLOCK][NULL_BLOCK + 3 := NULL_BLOCK];
      flBitmap := 0;
      S, F, Q, L, pools, clock, odd := map[], {}, {}, map[], map[], 0, {};
      heads := heads0;
      slBitmap := slBitmap0;
      new;
      for i := 0 to FL_INDEX_COUNT
        invariant |heads| == CLASSES && |slBitmap| == FL_INDEX_COUNT
        invariant forall c | 0 <= c < 32 * i :: heads[c] == NULL_BLOCK
        invariant forall h | 0 <= h < i :: slBitmap[h] == 0
        invariant flBitmap == 0 && L == map[] && S == map[] && F == {} && odd == {} && pools == map[]
        invariant |mem| == |memory|
      {
        slBitmap := slBitmap[i := 0];
        for j := 0 to SL_INDEX_COUNT
          invariant |heads| == CLASSES && |slBitmap| == FL_INDEX_COUNT
          invariant forall c | 0 <= c < 32 * i + j :: heads[c] == NULL_BLOCK
          invariant forall h | 0 <= h <= i :: slBitmap[h] == 0
          invariant flBitmap == 0 && L == map[] && S == map[] && F == {} && odd == {} && pools == map[]
          invariant |mem| == |memory|
        {
          heads := heads[32 * i + j := NULL_BLOCK];
        }
      }
      EmptyLists(heads, slBitmap);
    }

    lemma {:induction false} BlocksFollowed(b: nat)
      requires Valid() && Tiling(S, pools, |mem|) && b in S && S[b].pool in pools && b <= pools[S[b].pool]
      ensures var blocks := BlocksFrom(S, pools, |mem|, b);
        PoolWalk(mem, b, blocks) && forall k: nat | 0 < k < |blocks| :: PrevSound(mem, blocks, k)
      decreases pools[S[b].pool] - b
    {
      hide PhysicalOk, ListedOk, PoolWalk, PrevSound, SizeOf, FreeBit, PrevFreeBit, Valid;
      ValidIs();
      BlockSize(b);
      InPool(b);
      var blocks := BlocksFrom(S, pools, |mem|, b);
      if S[b].words == 0 {
        PoolEnd(mem, b);
        assert blocks == [b];
      } else {
        NextFacts(b);
        var next := Next(S, b);
        BlockSize(next);
        InPool(next);
        BlocksFollowed(next);
        var rest := BlocksFrom(S, pools, |mem|, next);
        assert blocks == [b] + rest;
        PoolCons(mem, b, rest);
        PrevCons(mem, b, rest);
      }
    }

    /** tlsf_check_pool finds nothing wrong in any state that meets the invariant. */
    lemma PoolSound(pool: nat)
      requires Valid() && pool >= 16 && pool / 8 - 1 in pools
      ensures Tiling(S, pools, |mem|) && pool / 8 - 1 in S
      ensures var blocks := BlocksFrom(S, pools, |mem|, pool / 8 - 1);
        PoolWalk(mem, pool / 8 - 1, blocks) && forall k: nat | k < |blocks| :: PrevSound(mem, blocks, k)
    {
      var b := pool / 8 - 1;
      PoolStart(b);
      InPool(b);
      BlockSize(b);
      BlocksFollowed(b);
      hide ListedOk, Headers, Flags, Ends, SizeOf, FreeBit, PrevFreeBit;
      var blocks := BlocksFrom(S, pools, |mem|, b);
      assert PrevSound(mem, blocks, 0);
    }

    lemma PoolStart(p: nat)
      requires Physical() && p in pools
      ensures p in S && S[p].pool == p && p !in Q
    {
      assert PoolOk(S, pools, p);
      assert TileOk(S, pools, |mem|, p);
      PredFacts(p);
    }

    lemma InPool(b: nat)
      requires Physical() && b in S
      ensures S[b].pool in pools && S[b].pool <= b <= pools[S[b].pool] && (S[b].words == 0 <==> b == pools[S[b].pool])
      ensures S[b].words > 0 ==> Next(S, b) in S && S[Next(S, b)].pool == S[b].pool
    {
      assert TileOk(S, pools, |mem|, b);
    }

    /** The lists can be followed to their ends. */
    ghost predicate Walkable(chains: seq<seq<nat>>) reads this {
      && |heads| == CLASSES && |slBitmap| == FL_INDEX_COUNT && |chains| == CLASSES
      && forall c: nat | c < CLASSES :: ListWalk(mem, heads[c], chains[c])
    }

    ghost predicate ClassSound(chains: seq<seq<nat>>, c: nat) reads this {
      && c < |heads| && c / 32 < |slBitmap| && c < |chains|
      && ListSound(mem, heads[c], slBitmap[c / 32], flBitmap, chains[c], c / 32, c % 32)
    }

    ghost predicate SoundBelow(chains: seq<seq<nat>>, n: nat) reads this {
      forall c: nat | c < n :: ClassSound(chains, c)
    }

    lemma OneMoreSound(chains: seq<seq<nat>>, n: nat)
      ensures SoundBelow(chains, n + 1) <==> SoundBelow(chains, n) && ClassSound(chains, n)
    {
      hide ClassSound;
    }

    /** tlsf_check: the number of failed checks, negated. In any state whose lists can be followed it is 0
        exactly if all lists and bitmaps are sound. */
    method Check(ghost chains: seq<seq<nat>>) returns (status: int)
      requires Walkable(chains)
      ensures status <= 0 && (status == 0 <==> SoundBelow(chains, CLASSES))
    {
      assert SoundBelow(chains, 0);
      hide ListWalk, ListSound, SoundBelow;
      status := 0;
      for i := 0 to FL_INDEX_COUNT
        invariant status <= 0 && (status == 0 <==> SoundBelow(chains, 32 * i))
      {
        for j := 0 to SL_INDEX_COUNT
          invariant status <= 0 && (status == 0 <==> SoundBelow(chains, 32 * i + j))
        {
          ghost var c := 32 * i + j;
          assert c / 32 == i && c % 32 == j;
          var s := CheckList(mem, heads[32 * i + j], slBitmap[i], flBitmap, i, j, chains[c]);
          assert ClassSound(chains, c) <==> s == 0;
          OneMoreSound(chains, c);
          status := status + s;
        }
      }
    }

    lemma HeadKnown(c: nat)
      requires Core() && c < CLASSES
      ensures |heads| == CLASSES && Lists(L, heads, clock) && (heads[c] == NULL_BLOCK || heads[c] in L)
    {
      hide PhysicalOk;
      assert HeadOk(L, heads, c);
    }

    lemma {:induction false} ChainSound(b: nat, c: nat)
      requires Valid() && b in L && L[b].cls == c < CLASSES && Lists(L, heads, clock)
      ensures var chain := Chain(L, heads, clock, b); ListWalk(mem, b, chain) && AllSound(mem, chain, |chain|, c / 32, c % 32)
      decreases L[b].stamp
    {
      NodeFacts(b, c);
      hide PhysicalOk, ListedOk, ListWalk, AllSound, NodeSound, Reachable, Valid;
      var next := L[b].next;
      if next == NULL_BLOCK {
        NothingWalked(mem, c / 32, c % 32);
        assert Chain(L, heads, clock, next) == [];
      } else {
        ChainSound(next, c);
      }
      ListCons(mem, b, Chain(L, heads, clock, next), c / 32, c % 32);
    }

    lemma NothingWalked(m: seq<nat>, i: nat, j: nat)
      ensures ListWalk(m, NULL_BLOCK, []) && AllSound(m, [], 0, i, j)
    {
    }

    lemma NodeFacts(b: nat, c: nat)
      requires Valid() && b in L && L[b].cls == c < CLASSES && Lists(L, heads, clock)
      ensures b != NULL_BLOCK && Reachable(mem, b) && NodeSound(mem, b, c / 32, c % 32) && mem[b + 2] == L[b].next
      ensures L[b].next == NULL_BLOCK || (L[b].next in L && L[L[b].next].cls == c && L[L[b].next].stamp < L[b].stamp)
    {
      hide SizeOf, FreeBit, PrevFreeBit, ClassOf, MappingInsert, PhysicalOk, Lists, Bitmaps, Coalesced;
      CheckBlock(b);
      ListedFacts(b);
      var size := 8 * SizeOf(mem[b + 1]);
      var (fl, sl) := MappingInsert(size);
      ClassPosition(size, fl, sl);
      assert LinkStored(mem, L, b);
    }

    /** The checks hold in every state that meets the invariant. */
    lemma ListsSound()
      requires Valid()
      ensures |heads| == CLASSES && Lists(L, heads, clock)
      ensures var chains := ChainsOf(L, heads, clock); Walkable(chains) && SoundBelow(chains, CLASSES)
    {
      ListedShape(mem, heads, slBitmap, flBitmap, S, F, L, clock);
      HeadKnown(0);
      ghost var chains := ChainsOf(L, heads, clock);
      forall c: nat | c < CLASSES ensures ListWalk(mem, heads[c], chains[c]) && ClassSound(chains, c) {
        ListFollowed(c, Chain(L, heads, clock, heads[c])) by { HeadKnown(c); }
      }
    }

    lemma ListFollowed(c: nat, chain: seq<nat>)
      requires Valid() && c < CLASSES && |heads| == CLASSES && |slBitmap| == FL_INDEX_COUNT
      requires Lists(L, heads, clock) && (heads[c] == NULL_BLOCK || heads[c] in L) && chain == Chain(L, heads, clock, heads[c])
      ensures ListWalk(mem, heads[c], chain) && ListSound(mem, heads[c], slBitmap[c / 32], flBitmap, chain, c / 32, c % 32)
    {
      hide PhysicalOk, ListedOk, ListWalk, AllSound, Bit;
      CheckBits(c / 32, c % 32);
      NothingWalked(mem, c / 32, c % 32);
      if heads[c] != NULL_BLOCK {
        ChainSound(heads[c], c);
      } else {
        assert chain == [];
      }
    }

    lemma CheckBits(i: nat, j: nat)
      requires Core() && i < 25 && j < 32
      ensures |slBitmap| == 25 && |heads| == CLASSES
      ensures Bit(slBitmap[i], j) <==> heads[32 * i + j] != NULL_BLOCK
      ensures Bit(slBitmap[i], j) ==> Bit(flBitmap, i) && slBitmap[i] != 0
      ensures heads[32 * i + j] != NULL_BLOCK ==> heads[32 * i + j] in L && L[heads[32 * i + j]].cls == 32 * i + j
    {
      hide PhysicalOk, Bit;
      assert ListBit(heads, NULL_BLOCK, slBitmap, i, j);
      assert RowBit(slBitmap, flBitmap, i);
      if Bit(slBitmap[i], j) { BitNonzero(slBitmap[i], j); }
      assert HeadOk(L, heads, 32 * i + j);
    }

    lemma CheckBlock(b: nat)
      requires Valid() && b in L
      ensures b in S && b + 3 < |mem| && FreeBit(mem[b + 1]) && !PrevFreeBit(mem[b + 1])
      ensures 3 <= SizeOf(mem[b + 1]) < MAX_WORDS && SizeOf(mem[b + 1]) == S[b].words
      ensures var n := Next(S, b); n + 1 < |mem| && !FreeBit(mem[n + 1]) && PrevFreeBit(mem[n + 1])
      ensures L[b].cls == ClassOf(8 * SizeOf(mem[b + 1]))
      ensures mem[b + 2] == NULL_BLOCK || (mem[b + 2] in L && L[mem[b + 2]].cls == L[b].cls && L[mem[b + 2]].stamp < L[b].stamp)
    {
      hide SizeOf, FreeBit, PrevFreeBit, ClassOf, Headers, Flags, Tiling, Ends;
      ListedFacts(b);
      NextFacts(b);
      BlockSize(b);
      BlockSize(Next(S, b));
      AgreeAt(S, F, L, b);
      PredFacts(b);
      if S[b].pred != 0 { NextFacts(S[b].pred); }
      assert LinkStored(mem, L, b);
      assert LinkOk(L, heads, clock, b);
    }

    /** Live payloads do not overlap each other, and lie within memory. */
    lemma PayloadsDisjoint(p: nat, q: nat)
      requires Valid() && Live(p) && Live(q) && p != q
      ensures var b, c := BlockOf(p), BlockOf(q);
        && p + 8 * S[b].words <= 8 * |mem|
        && (p + 8 * S[b].words <= q || q + 8 * S[c].words <= p)
    {
      var b, c := BlockOf(p), BlockOf(q);
      assert SepOk(S, b, c) && SepOk(S, c, b);
      BlockFits(S, pools, |mem|, b);
    }

    /** The free blocks are exactly the listed ones, and each is in the list of its size only. */
    lemma InItsList(b: nat, c: nat)
      requires Valid() && b in S && c < CLASSES
      ensures |heads| == CLASSES && Lists(L, heads, clock) && (heads[c] == NULL_BLOCK || heads[c] in L)
      ensures b in Chain(L, heads, clock, heads[c]) <==> b in F && ClassOf(8 * S[b].words) == c
    {
      hide PhysicalOk, ClassOf;
      assert b != NULL_BLOCK by { BlockMin(b); }
      OnExactlyItsList(L, heads, clock, b, c);
      if b in L { AgreeAt(S, F, L, b); }
    }

    lemma BlockMin(b: nat)
      requires Physical() && b in S
      ensures b >= NULL_BLOCK + 3
    {
      BlockFits(S, pools, |mem|, b);
    }

    /** A free block's neighbours are in use. */
    lemma NoFreeNeighbours(b: nat)
      requires Valid() && b in F
      ensures b in S && S[b].words > 0 && Next(S, b) in S && Next(S, b) !in F && S[b].pred !in F
    {
      FreeFacts(b);
      NextFacts(b);
      ListedFacts(b);
    }

    /** Once every block of a pool is free again, they have become one block of the pool's size. */
    lemma AllFree(p: nat)
      requires Valid() && p in pools
      requires forall b | b in S && S[b].pool == p && S[b].words > 0 :: b in F
      ensures p in S && p in F && Next(S, p) == pools[p]
      ensures forall b | b in S && S[b].pool == p :: b == p || b == pools[p]
    {
      hide ListedOk;
      PoolStart(p);
      InPool(p);
      assert PoolOk(S, pools, p);
      NoFreeNeighbours(p);
      InPool(Next(S, p));
      forall b | b in S && S[b].pool == p ensures b == p || b == pools[p] {
        InPool(b);
        assert SepOk(S, p, b);
        assert SepOk(S, b, pools[p]);
      }
    }

    /** A search cannot fail while a free block has a 32nd of the request to spare. */
    lemma RoomSuffices(size: nat, b: nat)
      requires Valid() && b in F && b in S && size % 8 == 0 && size + size / 32 <= 8 * S[b].words
      ensures !NoFit(size / 8)
    {
      hide ClassOf, SearchClass, PhysicalOk;
      SearchComplete(size, 8 * S[b].words);
      assert 8 * (size / 8) == size;
      assert b in L;
    }
  }

  /** What following the lists meets. */
  ghost function ChainsOf(L: map<nat, Link>, heads: seq<nat>, clock: nat): seq<seq<nat>>
    requires Lists(L, heads, clock) && |heads| == CLASSES
  {
    seq(CLASSES, c requires 0 <= c < CLASSES => assert HeadOk(L, heads, c); Chain(L, heads, clock, heads[c]))
  }

  /** The blocks from b to the end of its pool. */
  ghost function BlocksFrom(S: Blocks, pools: map<nat, nat>, top: nat, b: nat): seq<nat>
    requires Tiling(S, pools, top) && b in S
    decreases if b in S && S[b].pool in pools && b <= pools[S[b].pool] then pools[S[b].pool] - b else 0
  {
    if S[b].words == 0 then [b] else
      assert TileOk(S, pools, top, b);
      assert TileOk(S, pools, top, Next(S, b));
      [b] + BlocksFrom(S, pools, top, Next(S, b))
  }

  /** The sizes and overheads of the blocks from b to the end of its pool, in bytes. */
  ghost function WalkSum(S: Blocks, pools: map<nat, nat>, top: nat, b: nat): nat
    requires Tiling(S, pools, top) && b in S
    decreases if b in S && S[b].pool in pools && b <= pools[S[b].pool] then pools[S[b].pool] - b else 0
  {
    if S[b].words == 0 then 0 else
      assert TileOk(S, pools, top, b);
      assert TileOk(S, pools, top, Next(S, b));
      8 * S[b].words + 8 + WalkSum(S, pools, top, Next(S, b))
  }

  /** However blocks are split and merged, a pool's sizes and overheads add up to the same. */
  lemma {:induction false} Conserved(S: Blocks, pools: map<nat, nat>, top: nat, b: nat)
    requires Tiling(S, pools, top) && b in S
    ensures S[b].pool in pools && b <= pools[S[b].pool]
    ensures WalkSum(S, pools, top, b) == 8 * (pools[S[b].pool] - b)
    decreases if S[b].pool in pools && b <= pools[S[b].pool] then pools[S[b].pool] - b else 0
  {
    assert TileOk(S, pools, top, b);
    if S[b].words > 0 {
      assert TileOk(S, pools, top, Next(S, b));
      Conserved(S, pools, top, Next(S, b));
    }
  }

  lemma EmptyLists(heads: seq<nat>, sl: seq<word>)
    requires |heads| == CLASSES && |sl| == 25
    requires forall c | 0 <= c < 800 :: heads[c] == NULL_BLOCK
    requires forall h | 0 <= h < 25 :: sl[h] == 0
    ensures Lists(map[], heads, 0) && Bitmaps(heads, NULL_BLOCK, sl, 0)
  {
    hide Bit;
    forall i: nat, j: nat | i < 25 && j < 32 ensures ListBit(heads, NULL_BLOCK, sl, i, j) {
      BitsOfZero(j);
    }
    forall i: nat | i < 32 ensures RowBit(sl, 0, i) {
      BitsOfZero(i);
    }
  }

  /** The bytes of a pool's block: what remains beside two size words, wrapping around below 16. */
  function PoolBytes(bytes: nat): nat {
    RoundDown((bytes + SIZE_RANGE - 16) % SIZE_RANGE, 8)
  }

  lemma PoolBytesIs(bytes: nat)
    requires bytes < SIZE_RANGE
    ensures bytes >= 16 ==> PoolBytes(bytes) == 8 * (bytes / 8 - 2)
    ensures bytes < 16 ==> PoolBytes(bytes) > BLOCK_SIZE_MAX
    ensures PoolBytes(bytes) % 8 == 0
  {
    if bytes >= 16 {
      assert (bytes + SIZE_RANGE - 16) % SIZE_RANGE == bytes - 16;
    } else {
      assert (bytes + SIZE_RANGE - 16) % SIZE_RANGE == bytes + SIZE_RANGE - 16;
    }
  }

  function Least(a: nat, b: nat): nat { if a < b then a else b }

  /** The n bytes from address p in m are the n bytes from address q in m2. */
  ghost predicate BytesSame(m: seq<nat>, p: nat, m2: seq<nat>, q: nat, n: nat) {
    forall k: nat | k < n :: ByteMoved(m, p, m2, q, k)
  }

  ghost predicate ByteMoved(m: seq<nat>, p: nat, m2: seq<nat>, q: nat, k: nat) {
    var a, c := p + k, q + k;
    a / 8 < |m| && c / 8 < |m2| && ByteAt(m2, c) == ByteAt(m, a)
  }

  lemma QuietMore(v: View, v2: View, X: set<nat>, Y: set<nat>)
    requires Quiet(v, v2, X) && X <= Y
    ensures Quiet(v, v2, Y)
  {
  }

  lemma QuietOne(v: View, v2: View, b: nat, x: nat)
    requires Quiet(v, v2, {x}) && UsedIn(v.S, v.F, b) && !UsedIn(v.S, v.F, x)
    ensures QuietAt(v, v2, b) && b != x
  {
    assert QuietAt(v, v2, b);
  }

  lemma CopyWrites(m: seq<nat>, S: Blocks, p: nat, q: nat, n: nat)
    requires p / 8 + (n + 7) / 8 <= |m| && q >= 16 && q % 8 == 0 && BlockOf(q) in S
    requires (n + 7) / 8 <= S[BlockOf(q)].words
    ensures WritesOnly(m, WordsCopied(m, q / 8, p / 8, n), S, BlockOf(q))
  {
  }

  lemma MoveQuiet(v0: View, v1: View, v2: View, v3: View, b: nat, nb: nat)
    requires Quiet(v0, v1, {nb}) && Quiet(v1, v2, {nb}) && Quiet(v2, v3, {b}) && b != nb
    requires UsedIn(v2.S, v2.F, nb)
    ensures Quiet(v0, v3, {b, nb}) && QuietAt(v2, v3, nb)
  {
    QuietTrans3(v0, v1, v2, v3, {nb}, {nb}, {b}, {b, nb});
    assert QuietAt(v2, v3, nb);
  }

  lemma MoveBytes(v0: View, v1: View, v2: View, v3: View, p: nat, q: nat, n: nat)
    requires p >= 16 && p % 8 == 0 && q >= 16 && q % 8 == 0
    requires BlockOf(p) in v0.S && BlockOf(q) in v2.S
    requires PayloadSame(v0.m, v1.m, v0.S, BlockOf(p)) && PayloadSame(v2.m, v3.m, v2.S, BlockOf(q))
    requires p / 8 + (n + 7) / 8 <= |v1.m| && q / 8 + (n + 7) / 8 <= |v1.m|
    requires (n + 7) / 8 <= v0.S[BlockOf(p)].words && (n + 7) / 8 <= v2.S[BlockOf(q)].words
    requires v2.m == WordsCopied(v1.m, q / 8, p / 8, n)
    ensures BytesSame(v0.m, p, v3.m, q, n)
  {
    hide WordsCopied, ByteAt, BlockOf;
    forall k: nat | k < n ensures ByteMoved(v0.m, p, v3.m, q, k) {
      ByteSteps(v0, v1, v2, v3, p, q, n, k, p / 8, q / 8, (n + 7) / 8);
    }
  }

  lemma ByteSteps(v0: View, v1: View, v2: View, v3: View, p: nat, q: nat, n: nat, k: nat, s: nat, d: nat, words: nat)
    requires p >= 16 && p == 8 * s && q >= 16 && q == 8 * d && k < n && words == (n + 7) / 8
    requires BlockOf(p) in v0.S && BlockOf(q) in v2.S
    requires PayloadSame(v0.m, v1.m, v0.S, BlockOf(p)) && PayloadSame(v2.m, v3.m, v2.S, BlockOf(q))
    requires s + words <= |v1.m| && d + words <= |v1.m|
    requires words <= v0.S[BlockOf(p)].words && words <= v2.S[BlockOf(q)].words
    requires v2.m == WordsCopied(v1.m, d, s, n)
    ensures ByteMoved(v0.m, p, v3.m, q, k)
  {
    hide PayloadSame, WordsCopied, ByteAt, BlockOf;
    assert |v2.m| == |v1.m| by { CopiedSize(v1.m, d, s, n); }
    CopiedByte(v1.m, d, s, n, k);
    ByteKept(v0.m, v1.m, v0.S, p, n, k, s, words);
    ByteKept(v2.m, v3.m, v2.S, q, n, k, d, words);
  }

  lemma CopiedSize(m: seq<nat>, d: nat, s: nat, n: nat)
    requires s + (n + 7) / 8 <= |m|
    ensures |WordsCopied(m, d, s, n)| == |m|
  {
  }

  lemma ByteKept(m: seq<nat>, m2: seq<nat>, S: Blocks, p: nat, n: nat, k: nat, s: nat, words: nat)
    requires p >= 16 && p == 8 * s && k < n && words == (n + 7) / 8
    requires BlockOf(p) in S && PayloadSame(m, m2, S, BlockOf(p)) && words <= S[BlockOf(p)].words && (s + words <= |m| || s + words <= |m2|)
    ensures (p + k) / 8 < |m| && (p + k) / 8 < |m2| && ByteAt(m2, p + k) == ByteAt(m, p + k)
  {
    hide Byte;
    var a := s + k / 8;
    assert (p + k) / 8 == a && k / 8 < words;
    assert m2[a] == m[a];
  }

  lemma PrefixBytes(m: seq<nat>, S: Blocks, m2: seq<nat>, S2: Blocks, p: nat, size: nat)
    requires p >= 16 && p % 8 == 0 && BlockOf(p) in S && BlockOf(p) in S2
    requires Next(S, BlockOf(p)) < |m| && PrefixSame(m, S, m2, S2, BlockOf(p)) && size <= 8 * S2[BlockOf(p)].words
    ensures BytesSame(m, p, m2, p, Least(8 * S[BlockOf(p)].words, size))
  {
    var n := Least(8 * S[BlockOf(p)].words, size);
    forall k: nat | k < n ensures ByteMoved(m, p, m2, p, k) {
      assert m2[(p + k) / 8] == m[(p + k) / 8];
    }
  }

  /** The payload words that block b has both before and after are the same. */
  ghost predicate PrefixSame(m: seq<nat>, S: Blocks, m2: seq<nat>, S2: Blocks, b: nat)
    requires b in S && b in S2
  {
    |m| == |m2| && forall i | b + 2 <= i <= Next(S, b) && i <= Next(S2, b) && i < |m| :: m2[i] == m[i]
  }

  lemma PayloadLonger(m: seq<nat>, m2: seq<nat>, m3: seq<nat>, S: Blocks, S2: Blocks, b: nat)
    requires b in S && b in S2 && S[b].words <= S2[b].words
    requires PayloadSame(m, m2, S, b) && PayloadSame(m2, m3, S2, b)
    ensures PayloadSame(m, m3, S, b)
  {
  }

  lemma PrefixFrom(m: seq<nat>, m2: seq<nat>, m3: seq<nat>, S: Blocks, S3: Blocks, b: nat)
    requires b in S && b in S3 && PayloadSame(m, m2, S, b) && PayloadSame(m2, m3, S3, b)
    ensures PrefixSame(m, S, m3, S3, b)
  {
  }

  /** A block that is free before and is not handed out stays out of use. */
  lemma QuietStaysFree(v: View, v2: View, b: nat)
    requires Quiet(v, v2, {}) && b in v.F
    ensures !UsedIn(v2.S, v2.F, b)
  {
    assert UsedIn(v2.S, v2.F, b) ==> UsedIn(v.S, v.F, b);
  }

  function BlockOf(p: nat): nat
  {
    if p < 16 then 0 else p / 8 - 2
  }

  /** p is the payload of a block that is now in use, was not before, and is large enough. */
  ghost predicate Handed(v: View, v2: View, p: nat, size: nat) {
    && p >= 16 && p % 8 == 0 && UsedIn(v2.S, v2.F, BlockOf(p)) && !UsedIn(v.S, v.F, BlockOf(p))
    && size <= 8 * v2.S[BlockOf(p)].words < size + 32
  }

  lemma HandedIs(v: View, v2: View, b: nat, p: nat, size: nat)
    requires UsedIn(v2.S, v2.F, b) && !UsedIn(v.S, v.F, b) && p == 8 * (b + 2)
    requires size % 8 == 0 && size / 8 <= v2.S[b].words < size / 8 + 4
    ensures Handed(v, v2, p, size) && BlockOf(p) == b
  {
  }

  lemma AdjustLarge(size: nat)
    ensures AdjustRequest(size, 8) > 0 ==> AdjustRequest(size, 8) / 8 >= 3
  {
  }

  /** What tlsf_memalign searches for. */
  function AlignedRequest(align: nat, size: nat): nat
    requires align > 0
  {
    var adjust := AdjustRequest(size, 8);
    if adjust != 0 && align > 8 then AdjustRequest(adjust + align + 32, align) else adjust
  }

  lemma AlignedServes(align: nat, size: nat, k: nat)
    requires size < SIZE_RANGE && align == Pow2(k) && k < 63
    ensures var r := AlignedRequest(align, size); var adjust := AdjustRequest(size, 8);
      && r % 8 == 0 && (r == 0 || adjust >= 24)
      && (r > 0 && align > 8 ==> r >= adjust + align + 32)
      && (align <= 8 ==> r == adjust)
  {
    AdjustServes(size);
    hide AdjustRequest, Pow2;
    var adjust := AdjustRequest(size, 8);
    if adjust != 0 && align > 8 {
      AlignedAbove(k);
      GapRequest(adjust, k);
    }
  }

  lemma AlignedAbove(k: nat)
    ensures Pow2(k) > 8 <==> k >= 4
  {
    Pow2Values();
    Pow2Is16();
    if k >= 4 { Pow2Monotone(4, k); } else { Pow2Monotone(k, 3); }
  }

  lemma StartAligned(b: nat, align: nat, k: nat)
    requires align == Pow2(k)
    ensures var ptr := 8 * (b + 2); var q := AlignedStart(ptr, align);
      && q % align == 0 && q >= ptr && (q - ptr) % 8 == 0
      && (q == ptr || 32 <= q - ptr <= align + 24)
      && (align <= 8 ==> q == ptr)
  {
    var ptr := 8 * (b + 2);
    assert ptr % 8 == 0;
    AlignedAbove(k);
    if k >= 4 {
      GapBounds(ptr, k);
    } else {
      Pow2Values();
      Pow2Multiple(3, k);
      MultipleOfMultiple(ptr, 8, align);
      AlignedPtr(ptr, align);
    }
  }

  /** The located block can be split at the gap with room left for the request. */
  lemma GapLeaves(align: nat, size: nat, k: nat, gap: nat, words: nat)
    requires size < SIZE_RANGE && align == Pow2(k) && k < 63 && AlignedRequest(align, size) > 0
    requires AlignedRequest(align, size) / 8 <= words && gap % 8 == 0
    requires gap == 0 || 32 <= gap <= align + 24
    requires align <= 8 ==> gap == 0
    ensures gap != 0 ==> 4 <= gap / 8 && words >= gap / 8 + 4 && words - gap / 8 >= AdjustRequest(size, 8) / 8
    ensures gap == 0 ==> words >= AdjustRequest(size, 8) / 8
    ensures AdjustRequest(size, 8) / 8 >= 3
  {
    AlignedServes(align, size, k);
    hide AdjustRequest, AlignedRequest, Pow2;
  }

  lemma SearchPosition(size: nat, fl: nat, sl: nat)
    requires (fl, sl) == MappingSearch(size)
    ensures sl < 32 && 32 * fl + sl == SearchClass(size)
    ensures fl >= 25 <==> SearchClass(size) >= CLASSES
  {
    hide MappingSearch;
  }
}
