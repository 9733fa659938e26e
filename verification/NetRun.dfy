/** The snapshot codec over many frames: what the receiver holds between packets, and when a packet
    that was encoded against a snapshot is read as the sender meant it. */
module NetRun {
  import opened Lz4Block
  import opened Net

  // ------------------------------------------------- two packets in a frame

  lemma {:induction false} NewCountMost(slots: seq<Slot>, es: seq<Entry>)
    ensures NewCount(slots, es) <= |es|
  {
    if es != [] { NewCountMost(slots, es[1..]); }
  }

  /** Two packets in one frame of the receiver: an entity that the first omits and the second has again
      is lost, and one that the first has and the second omits stays. */
  method TwoInAFrame(t: Types, c: Connection, first: seq<byte>, second: seq<byte>, now: int, initial: int -> seq<seq<byte>>,
                     ghost es1: seq<Entry>, ghost acks1: seq<Entry>, ghost es2: seq<Entry>, ghost acks2: seq<Entry>, ghost kindOf: int -> nat)
    requires EntriesOk(t, es1) && Distinct(es1) && first == Delta(t, es1, acks1) && EntriesTyped(es1, kindOf)
    requires EntriesOk(t, es2) && Distinct(es2) && second == Delta(t, es2, acks2) && EntriesTyped(es2, kindOf)
    requires SlotsOk(t, c.entities[..]) && Typed(c.entities[..], kindOf)
    requires LiveCount(c.entities[..]) + NewCount(c.entities[..], es1) + |es2| <= MAX_ENTITIES
    requires forall j | 0 <= j < |es1| :: Fits(t, initial(es1[j].sequence))
    requires forall j | 0 <= j < |es2| :: Fits(t, initial(es2[j].sequence))
    modifies c.entities
    ensures (exists k :: 0 <= k < MAX_ENTITIES && LostBetween(old(c.entities[..]), k, es1, es2, now)) ==> !Reproduces(t, c.entities[..], es2)
    ensures Surplus(es1, es2) && Reproducible(t, old(c.entities[..]), es1, acks1, now, initial) ==> !Reproduces(t, c.entities[..], es2)
  {
    ghost var was := c.entities[..];
    hide *;
    c.ReadEntities(t, first, now, initial, es1, acks1, kindOf);
    ghost var mid := c.entities[..];
    NewCountMost(mid, es2);
    LostEnds(t, was, mid, es1, es2, now);
    SurplusStays(t, mid, es1, es2, now);
    c.ReadEntities(t, second, now, initial, es2, acks2, kindOf);
  }

  /** A live entity, not marked yet, that is in the second snapshot but not in the first. */
  ghost predicate LostBetween(slots: seq<Slot>, k: nat, es1: seq<Entry>, es2: seq<Entry>, now: int) {
    && k < |slots| && slots[k].life == Live && slots[k].seen != now
    && !SeenAmong(slots[k].remote, es1, |es1|) && SeenAmong(slots[k].remote, es2, |es2|)
  }

  ghost predicate Surplus(es1: seq<Entry>, es2: seq<Entry>) {
    exists j :: 0 <= j < |es1| && !SeenAmong(es1[j].sequence, es2, |es2|)
  }

  lemma LostEnds(t: Types, was: seq<Slot>, mid: seq<Slot>, es1: seq<Entry>, es2: seq<Entry>, now: int)
    requires SlotsOk(t, mid) && OthersSwept(was, mid, es1, now)
    ensures (exists k :: 0 <= k < MAX_ENTITIES && LostBetween(was, k, es1, es2, now)) ==> !NoneEnding(mid, es2)
  {
    hide Fits;
    if k: nat :| k < MAX_ENTITIES && LostBetween(was, k, es1, es2, now) {
      assert mid[k] == Swept(was[k], now);
      assert SlotOk(t, mid, k);
      var j :| 0 <= j < |es2| && es2[j].sequence == was[k].remote;
      assert !Lives(mid, es2[j].sequence);
    }
  }

  lemma SurplusStays(t: Types, mid: seq<Slot>, es1: seq<Entry>, es2: seq<Entry>, now: int)
    requires AllMarked(mid, now)
    ensures Surplus(es1, es2) && Reproduces(t, mid, es1) ==> !OnlyMarked(mid, es2, now)
  {
    hide SeenAmong;
    if Surplus(es1, es2) && Reproduces(t, mid, es1) {
      var j :| 0 <= j < |es1| && !SeenAmong(es1[j].sequence, es2, |es2|);
      var k := Lookup(mid, es1[j].sequence, 0);
      assert Mirrors(t, mid, es1[j]);
      assert mid[k].life == Live && mid[k].seen == now;
    }
  }

  // --------------------------------------------------------- after the packet

  /** Between two frames of the receiver: it mirrors the snapshot `held` and nothing else, and nothing
      is marked at `now` or later. */
  ghost predicate Settled(t: Types, slots: seq<Slot>, held: seq<Entry>, now: int, kindOf: int -> nat) {
    && SlotsOk(t, slots) && Typed(slots, kindOf) && Reproduces(t, slots, held)
    && forall k {:trigger slots[k]} | 0 <= k < |slots| :: slots[k].life != Removed && (slots[k].life == Live ==> slots[k].seen < now)
  }

  /** ecs_update: what was removed is gone. */
  function Updated(slot: Slot): Slot {
    if slot.life == Removed then slot.(life := Gone) else slot
  }

  method FrameEnd(t: Types, c: Connection, now: int, ghost es: seq<Entry>, ghost kindOf: int -> nat)
    requires SlotsOk(t, c.entities[..]) && Typed(c.entities[..], kindOf) && AllMarked(c.entities[..], now)
    modifies c.entities
    ensures Settled(t, c.entities[..], es, now + 1, kindOf) <==> old(Reproduces(t, c.entities[..], es))
  {
    ghost var was := c.entities[..];
    for i := 0 to c.entities.Length
      invariant forall k | 0 <= k < i :: c.entities[k] == Updated(was[k])
      invariant forall k | i <= k < c.entities.Length :: c.entities[k] == was[k]
    {
      c.entities[i] := Updated(c.entities[i]);
    }
    if Reproduces(t, was, es) {
      UpdatedSettled(t, was, c.entities[..], es, now, kindOf);
    } else if Settled(t, c.entities[..], es, now + 1, kindOf) {
      SettledUpdated(t, was, c.entities[..], es, now, kindOf);
    }
  }

  lemma UpdatedSettled(t: Types, a: seq<Slot>, b: seq<Slot>, es: seq<Entry>, now: int, kindOf: int -> nat)
    requires SlotsOk(t, a) && Typed(a, kindOf) && Reproduces(t, a, es) && AllMarked(a, now)
    requires |a| == |b| && forall k | 0 <= k < |a| :: b[k] == Updated(a[k])
    ensures Settled(t, b, es, now + 1, kindOf)
  {
    hide Fits, Gather, SeenAmong;
    forall k: nat | k < |b| ensures SlotOk(t, b, k) {
      assert SlotOk(t, a, k);
      LookupSame(a, b, b[k].remote);
    }
    forall j | 0 <= j < |es| ensures Mirrors(t, b, es[j]) && b[Lookup(b, es[j].sequence, 0)].life == Live {
      assert Mirrors(t, a, es[j]);
      LookupSame(a, b, es[j].sequence);
    }
    forall k {:trigger b[k]} | 0 <= k < |b| ensures b[k].life != Removed && (b[k].life == Live ==> b[k].seen < now + 1 && SeenAmong(b[k].remote, es, |es|)) {
      assert b[k] == Updated(a[k]);
    }
  }

  lemma SettledUpdated(t: Types, a: seq<Slot>, b: seq<Slot>, es: seq<Entry>, now: int, kindOf: int -> nat)
    requires Settled(t, b, es, now + 1, kindOf)
    requires |a| == |b| && forall k | 0 <= k < |a| :: b[k] == Updated(a[k])
    ensures Reproduces(t, a, es)
  {
    hide Fits, Gather, SeenAmong;
    forall j | 0 <= j < |es| ensures Mirrors(t, a, es[j]) && a[Lookup(a, es[j].sequence, 0)].life == Live {
      assert Mirrors(t, b, es[j]);
      LookupSame(a, b, es[j].sequence);
    }
    forall k {:trigger a[k]} | 0 <= k < |a| && a[k].life == Live ensures SeenAmong(a[k].remote, es, |es|) {
      assert b[k] == a[k];
    }
  }

  // ------------------------------------------------- which packets are read well

  /** The entry of a snapshot for a sequence number. */
  ghost predicate HasEntry(es: seq<Entry>, e: Entry) {
    exists j :: 0 <= j < |es| && es[j] == e
  }

  /** Without data come only entities that the acknowledged snapshot has with the same bytes. */
  lemma {:induction false} UnsentAcked(es: seq<Entry>, acks: seq<Entry>, kindOf: int -> nat, j: nat)
    requires j < |es| && !Diffs(es, acks)[j] && EntriesTyped(es, kindOf) && EntriesTyped(acks, kindOf)
    ensures HasEntry(acks, es[j])
    decreases |es|
  {
    if j == 0 {
      assert acks[0] == es[0];
    } else if SameEntity(es, acks) {
      UnsentAcked(es[1..], acks[1..], kindOf, j - 1);
      EntryBehind(acks, es[j]);
    } else {
      UnsentAcked(es[1..], acks, kindOf, j - 1);
    }
  }

  lemma EntryBehind(es: seq<Entry>, e: Entry)
    requires es != [] && HasEntry(es[1..], e)
    ensures HasEntry(es, e)
  {
    var j :| 0 <= j < |es[1..]| && es[1..][j] == e;
    assert es[j + 1] == e;
  }

  /** What a receiver that mirrors `held` has of an entity, or what a new entity starts with. */
  ghost predicate Has(t: Types, held: seq<Entry>, e: Entry, initial: int -> seq<seq<byte>>) {
    if SeenAmong(e.sequence, held, |held|) then HasEntry(held, e)
    else TypesOk(t) && e.kind < ENTITY_TYPES && Fits(t, initial(e.sequence)) && Gather(t.masks[e.kind], initial(e.sequence), 0) == e.data
  }

  /** The receiver has every entity that comes without data. */
  ghost predicate Suits(t: Types, held: seq<Entry>, es: seq<Entry>, acks: seq<Entry>, initial: int -> seq<seq<byte>>) {
    forall j | 0 <= j < |es| :: Diffs(es, acks)[j] || Has(t, held, es[j], initial)
  }

  /** Between frames, a packet is read well exactly if the receiver has every entity that comes without
      data. It may lack one when it has applied a snapshot newer than the acknowledged one: an entity
      whose value went back to the acknowledged one comes without data. */
  lemma ReproducibleWhen(t: Types, slots: seq<Slot>, held: seq<Entry>, es: seq<Entry>, acks: seq<Entry>, now: int, initial: int -> seq<seq<byte>>, kindOf: int -> nat)
    requires Settled(t, slots, held, now, kindOf) && Distinct(held) && EntriesOk(t, es) && EntriesTyped(es, kindOf)
    requires forall j | 0 <= j < |es| :: Fits(t, initial(es[j].sequence))
    ensures Reproducible(t, slots, es, acks, now, initial) <==> Suits(t, held, es, acks, initial)
  {
    hide Fits, Gather, SeenAmong, Diffs, Has, Base, EntryOk;
    assert OnlyMarked(slots, es, now);
    forall j | 0 <= j < |es|
      ensures Lives(slots, es[j].sequence) && (Base(t, slots, es[j], initial) == es[j].data <==> Has(t, held, es[j], initial))
    {
      assert EntryOk(t, es[j]);
      assert es[j].kind == kindOf(es[j].sequence);
      BaseIs(t, slots, held, es[j], now, initial, kindOf);
    }
  }

  lemma BaseIs(t: Types, slots: seq<Slot>, held: seq<Entry>, e: Entry, now: int, initial: int -> seq<seq<byte>>, kindOf: int -> nat)
    requires Settled(t, slots, held, now, kindOf) && Distinct(held) && EntryOk(t, e) && e.kind == kindOf(e.sequence) && Fits(t, initial(e.sequence))
    ensures Lives(slots, e.sequence) && (Base(t, slots, e, initial) == e.data <==> Has(t, held, e, initial))
  {
    hide Gather, Fits;
    var k := Lookup(slots, e.sequence, 0);
    assert HasLive(slots, e.sequence) ==> SeenAmong(slots[k].remote, held, |held|);
    if SeenAmong(e.sequence, held, |held|) {
      var j :| 0 <= j < |held| && held[j].sequence == e.sequence;
      assert Mirrors(t, slots, held[j]);
      assert slots[k].kind == kindOf(e.sequence);
      assert HasEntry(held, e) ==> held[j] == e;
    }
  }

  /** So a packet against the snapshot that the receiver applied last, or against none, is read well. */
  lemma AckedHolds(t: Types, slots: seq<Slot>, held: seq<Entry>, es: seq<Entry>, acks: seq<Entry>, now: int, initial: int -> seq<seq<byte>>, kindOf: int -> nat)
    requires Settled(t, slots, held, now, kindOf) && Distinct(held) && EntriesOk(t, es) && EntriesTyped(es, kindOf) && EntriesTyped(held, kindOf)
    requires forall j | 0 <= j < |es| :: Fits(t, initial(es[j].sequence))
    requires acks == held || acks == []
    ensures Reproducible(t, slots, es, acks, now, initial)
  {
    hide Settled, Fits;
    AckedSuits(t, held, es, acks, initial, kindOf);
    ReproducibleWhen(t, slots, held, es, acks, now, initial, kindOf);
  }

  lemma AckedSuits(t: Types, held: seq<Entry>, es: seq<Entry>, acks: seq<Entry>, initial: int -> seq<seq<byte>>, kindOf: int -> nat)
    requires EntriesTyped(es, kindOf) && EntriesTyped(held, kindOf) && (acks == held || acks == [])
    ensures Suits(t, held, es, acks, initial)
  {
    hide Diffs;
    forall j | 0 <= j < |es| ensures Diffs(es, acks)[j] || Has(t, held, es[j], initial) {
      if !Diffs(es, acks)[j] {
        UnsentAcked(es, acks, kindOf, j);
        var i :| 0 <= i < |acks| && acks[i] == es[j];
        assert SeenAmong(es[j].sequence, held, |held|);
      }
    }
  }

  /** An entity that comes without data, and of which the receiver holds another value, is not restored. */
  lemma StaysBehind(t: Types, slots: seq<Slot>, held: seq<Entry>, es: seq<Entry>, acks: seq<Entry>, now: int, initial: int -> seq<seq<byte>>, kindOf: int -> nat,
                    i: nat, j: nat)
    requires Settled(t, slots, held, now, kindOf) && Distinct(held) && EntriesOk(t, es) && EntriesTyped(es, kindOf)
    requires forall j | 0 <= j < |es| :: Fits(t, initial(es[j].sequence))
    requires i < |held| && j < |es| && held[i].sequence == es[j].sequence && held[i].data != es[j].data && !Diffs(es, acks)[j]
    ensures !Reproducible(t, slots, es, acks, now, initial)
  {
    hide Settled, Fits, Diffs;
    ReproducibleWhen(t, slots, held, es, acks, now, initial, kindOf);
    assert SeenAmong(es[j].sequence, held, |held|);
    assert !Has(t, held, es[j], initial);
  }

  /** Nothing has changed since the acknowledged snapshot: no entity comes with data. */
  lemma {:induction false} NothingChanged(es: seq<Entry>, j: nat)
    requires j < |es|
    ensures !Diffs(es, es)[j]
  {
    if j > 0 { NothingChanged(es[1..], j - 1); }
  }

  /** A value that went back: the sender is at the acknowledged snapshot again, and the receiver has
      applied another one in between, in which an entity has other bytes. They stay. */
  method ValueWentBack(t: Types, cur: seq<byte>, c: Connection, now: int, initial: int -> seq<seq<byte>>,
                       ghost es: seq<Entry>, ghost held: seq<Entry>, ghost kindOf: int -> nat, ghost i: nat, ghost j: nat)
    requires TypesOk(t) && RoundOk(t, cur, es, held, initial, kindOf) && Settled(t, c.entities[..], held, now, kindOf) && Distinct(held)
    requires i < |held| && j < |es| && held[i].sequence == es[j].sequence && held[i].data != es[j].data
    modifies c.entities
    ensures !Reproduces(t, c.entities[..], es)
  {
    HeldCount(t, c.entities[..], held, now, kindOf);
    NewMissing(t, c.entities[..], held, es, now, kindOf);
    LeftOk(t, cur, 0, es);
    NothingChanged(es, j);
    StaysBehind(t, c.entities[..], held, es, es, now, initial, kindOf, i, j);
    SettledIs(t, c.entities[..], held, now, kindOf);
    hide Settled, Fits, HoldsFrom, Distinct, EntriesTyped, LiveCount, NewCount, Reproduces, Reproducible, SlotsOk, Typed, AllMarked;
    Exchange(t, cur, cur, true, c, now, initial, es, es, kindOf);
  }

  // ------------------------------------------------------------------- room

  /** How many entries are not among those held. */
  function Missing(held: seq<Entry>, es: seq<Entry>): nat {
    if es == [] then 0 else (if IndexOf(held, es[0].sequence) < |held| then 0 else 1) + Missing(held, es[1..])
  }

  function IndexOf(held: seq<Entry>, sequence: int): (i: nat)
    ensures i <= |held| && (i < |held| ==> held[i].sequence == sequence)
    ensures i == |held| ==> forall j | 0 <= j < |held| :: held[j].sequence != sequence
  {
    if held == [] then 0 else if held[0].sequence == sequence then 0 else
      var i := IndexOf(held[1..], sequence);
      assert forall j | 1 <= j < |held| :: held[j] == held[1..][j - 1];
      1 + i
  }

  ghost function LiveIds(slots: seq<Slot>): set<nat> {
    set k: nat | k < |slots| && slots[k].life != Gone
  }

  lemma {:induction false} LiveSize(slots: seq<Slot>)
    ensures LiveCount(slots) == |LiveIds(slots)|
  {
    if slots != [] {
      var n := |slots| - 1;
      LiveSize(slots[..n]);
      assert LiveIds(slots) == LiveIds(slots[..n]) + (if slots[n].life != Gone then {n} else {});
    } else {
      assert LiveIds(slots) == {};
    }
  }

  /** Different live slots have different entries. */
  lemma {:induction false} NoMoreThan(slots: seq<Slot>, ids: set<nat>, held: seq<Entry>, n: nat)
    requires forall k | k in ids :: k < |slots| && IndexOf(held, slots[k].remote) < n
    requires forall k, l | k in ids && l in ids && k != l :: IndexOf(held, slots[k].remote) != IndexOf(held, slots[l].remote)
    ensures |ids| <= n
    decreases n
  {
    if n == 0 {
      assert ids == {};
    } else if k :| k in ids && IndexOf(held, slots[k].remote) == n - 1 {
      NoMoreThan(slots, ids - {k}, held, n - 1);
    } else {
      NoMoreThan(slots, ids, held, n - 1);
    }
  }

  /** The receiver has no more entities than the snapshot it mirrors. */
  lemma HeldCount(t: Types, slots: seq<Slot>, held: seq<Entry>, now: int, kindOf: int -> nat)
    requires Settled(t, slots, held, now, kindOf)
    ensures LiveCount(slots) <= |held|
  {
    hide Fits;
    LiveSize(slots);
    var ids := LiveIds(slots);
    forall k | k in ids ensures IndexOf(held, slots[k].remote) < |held| {
      assert SeenAmong(slots[k].remote, held, |held|);
    }
    forall k, l | k in ids && l in ids && k != l ensures IndexOf(held, slots[k].remote) != IndexOf(held, slots[l].remote) {
      assert SlotOk(t, slots, k) && SlotOk(t, slots, l);
    }
    NoMoreThan(slots, ids, held, |held|);
  }

  lemma {:induction false} NewMissing(t: Types, slots: seq<Slot>, held: seq<Entry>, es: seq<Entry>, now: int, kindOf: int -> nat)
    requires Settled(t, slots, held, now, kindOf)
    ensures NewCount(slots, es) <= Missing(held, es)
  {
    if es != [] {
      hide Fits, Gather;
      NewMissing(t, slots, held, es[1..], now, kindOf);
      var i := IndexOf(held, es[0].sequence);
      if i < |held| { assert Mirrors(t, slots, held[i]); }
    }
  }

  // ------------------------------------------------------------------ a run

  /** The snapshot applied before the i-th. */
  function Before(ess: seq<seq<Entry>>, i: nat): seq<Entry>
    requires i <= |ess|
  {
    if i == 0 then [] else ess[i - 1]
  }

  ghost predicate RoundOk(t: Types, data: seq<byte>, es: seq<Entry>, held: seq<Entry>, initial: int -> seq<seq<byte>>, kindOf: int -> nat) {
    && HoldsFrom(t, data, 0, es) && Distinct(es) && EntriesTyped(es, kindOf)
    && (forall j | 0 <= j < |es| :: Fits(t, initial(es[j].sequence)))
    && |held| + Missing(held, es) <= MAX_ENTITIES
  }

  ghost predicate SessionOk(t: Types, snapshots: seq<seq<byte>>, ess: seq<seq<Entry>>, initial: int -> seq<seq<byte>>, kindOf: int -> nat) {
    |snapshots| == |ess| && forall i | 0 <= i < |ess| :: RoundOk(t, snapshots[i], ess[i], Before(ess, i), initial, kindOf)
  }

  lemma RoundAt(t: Types, snapshots: seq<seq<byte>>, ess: seq<seq<Entry>>, i: nat, initial: int -> seq<seq<byte>>, kindOf: int -> nat)
    requires SessionOk(t, snapshots, ess, initial, kindOf)
    ensures |snapshots| == |ess|
    ensures i < |ess| ==> RoundOk(t, snapshots[i], ess[i], Before(ess, i), initial, kindOf) && ess[i] == Before(ess, i + 1)
    ensures Before(ess, 0) == []
  {
    hide RoundOk;
  }

  /** A connection from its start: one packet a frame, each made against the snapshot that the receiver
      applied last or, where that is not usable, against none. Packets that are lost are not applied and
      so not acknowledged either. After every frame the receiver mirrors the snapshot it got, as long as
      there is room for its entities beside those of the one before. */
  method Session(t: Types, c: Connection, snapshots: seq<seq<byte>>, usable: seq<bool>, start: int, initial: int -> seq<seq<byte>>,
                 ghost ess: seq<seq<Entry>>, ghost kindOf: int -> nat)
    requires TypesOk(t) && c.entities.Length == MAX_ENTITIES && forall k | 0 <= k < MAX_ENTITIES :: c.entities[k].life == Gone
    requires |usable| == |snapshots| && SessionOk(t, snapshots, ess, initial, kindOf)
    modifies c.entities
    ensures Settled(t, c.entities[..], Before(ess, |ess|), start + |ess|, kindOf)
  {
    hide Settled, RoundOk, SessionOk, TypesOk, HoldsFrom, Distinct, EntriesTyped, Before, Suits;
    NothingHeld(t, c.entities[..], start, kindOf);
    NoEntries(kindOf);
    RoundAt(t, snapshots, ess, 0, initial, kindOf);
    var ack: seq<byte> := [];
    var i, now := 0, start;
    while i < |snapshots|
      invariant 0 <= i <= |ess| && now == start + i && Settled(t, c.entities[..], Before(ess, i), now, kindOf)
      invariant Distinct(Before(ess, i)) && EntriesTyped(Before(ess, i), kindOf) && (i > 0 ==> HoldsFrom(t, ack, 0, Before(ess, i)))
    {
      ghost var es, held := ess[i], Before(ess, i);
      ghost var acks := if usable[i] && i > 0 then held else [];
      RoundAt(t, snapshots, ess, i, initial, kindOf);
      RoundIs(t, snapshots[i], es, held, initial, kindOf);
      AckedSuits(t, held, es, acks, initial, kindOf);
      Round(t, c, snapshots[i], ack, usable[i] && i > 0, now, initial, es, held, acks, kindOf);
      ack := snapshots[i];
      i, now := i + 1, now + 1;
    }
  }

  /** The snapshot that the i-th packet is made against, if any. */
  function AckOf(ess: seq<seq<Entry>>, based: seq<int>, i: nat): seq<Entry> {
    if i < |based| && 0 <= based[i] < |ess| then ess[based[i]] else []
  }

  /** The i-th packet is read well where the one before was applied. */
  ghost predicate SuitsAt(t: Types, ess: seq<seq<Entry>>, based: seq<int>, i: nat, initial: int -> seq<seq<byte>>)
    requires i < |ess|
  {
    Suits(t, Before(ess, i), ess[i], AckOf(ess, based, i), initial)
  }

  /** The same when acknowledgements lag behind, so that packets are made against any earlier snapshot or
      against none: as long as packets suit the receiver it mirrors after every frame the snapshot it got,
      and the first that does not suit it leaves it with something else. */
  method LaggingSession(t: Types, c: Connection, snapshots: seq<seq<byte>>, based: seq<int>, start: int, initial: int -> seq<seq<byte>>,
                        ghost ess: seq<seq<Entry>>, ghost kindOf: int -> nat)
    requires TypesOk(t) && c.entities.Length == MAX_ENTITIES && forall k | 0 <= k < MAX_ENTITIES :: c.entities[k].life == Gone
    requires 0 < |based| == |snapshots| && SessionOk(t, snapshots, ess, initial, kindOf) && forall i | 0 <= i < |based| :: -1 <= based[i] < i
    requires forall i: nat | i < |ess| - 1 :: SuitsAt(t, ess, based, i, initial)
    modifies c.entities
    ensures Settled(t, c.entities[..], Before(ess, |ess|), start + |ess|, kindOf) <==> SuitsAt(t, ess, based, |ess| - 1, initial)
  {
    hide Settled, RoundOk, SessionOk, TypesOk, HoldsFrom, Distinct, EntriesTyped, Before, Suits;
    NothingHeld(t, c.entities[..], start, kindOf);
    NoEntries(kindOf);
    RoundAt(t, snapshots, ess, 0, initial, kindOf);
    var i, now := 0, start;
    while i < |snapshots|
      invariant 0 <= i <= |ess| && now == start + i && Distinct(Before(ess, i)) && EntriesTyped(Before(ess, i), kindOf)
      invariant Settled(t, c.entities[..], Before(ess, i), now, kindOf) <==> i == 0 || SuitsAt(t, ess, based, i - 1, initial)
    {
      ghost var es, held, acks := ess[i], Before(ess, i), AckOf(ess, based, i);
      RoundAt(t, snapshots, ess, i, initial, kindOf);
      RoundIs(t, snapshots[i], es, held, initial, kindOf);
      if based[i] >= 0 {
        AckedAt(t, snapshots, ess, based[i], initial, kindOf);
      }
      Round(t, c, snapshots[i], if based[i] >= 0 then snapshots[based[i]] else [], based[i] >= 0, now, initial, es, held, acks, kindOf);
      i, now := i + 1, now + 1;
    }
  }

  lemma AckedAt(t: Types, snapshots: seq<seq<byte>>, ess: seq<seq<Entry>>, i: nat, initial: int -> seq<seq<byte>>, kindOf: int -> nat)
    requires SessionOk(t, snapshots, ess, initial, kindOf) && i < |ess|
    ensures |snapshots| == |ess| && HoldsFrom(t, snapshots[i], 0, ess[i]) && EntriesTyped(ess[i], kindOf)
  {
    RoundAt(t, snapshots, ess, i, initial, kindOf);
    RoundIs(t, snapshots[i], ess[i], Before(ess, i), initial, kindOf);
  }

  lemma NoEntries(kindOf: int -> nat)
    ensures Distinct([]) && EntriesTyped([], kindOf)
  {
  }

  lemma RoundIs(t: Types, data: seq<byte>, es: seq<Entry>, held: seq<Entry>, initial: int -> seq<seq<byte>>, kindOf: int -> nat)
    requires RoundOk(t, data, es, held, initial, kindOf)
    ensures HoldsFrom(t, data, 0, es) && Distinct(es) && EntriesTyped(es, kindOf)
  {
  }

  method Round(t: Types, c: Connection, data: seq<byte>, ack: seq<byte>, usable: bool, now: int, initial: int -> seq<seq<byte>>,
               ghost es: seq<Entry>, ghost held: seq<Entry>, ghost acks: seq<Entry>, ghost kindOf: int -> nat)
    requires TypesOk(t) && RoundOk(t, data, es, held, initial, kindOf) && Distinct(held) && EntriesTyped(held, kindOf)
    requires if usable then HoldsFrom(t, ack, 0, acks) && EntriesTyped(acks, kindOf) else acks == []
    requires Settled(t, c.entities[..], held, now, kindOf)
    modifies c.entities
    ensures Settled(t, c.entities[..], es, now + 1, kindOf) <==> Suits(t, held, es, acks, initial)
  {
    HeldCount(t, c.entities[..], held, now, kindOf);
    NewMissing(t, c.entities[..], held, es, now, kindOf);
    LeftOk(t, data, 0, es);
    ReproducibleWhen(t, c.entities[..], held, es, acks, now, initial, kindOf);
    SettledIs(t, c.entities[..], held, now, kindOf);
    hide Settled, Fits, HoldsFrom, Distinct, EntriesTyped, LiveCount, NewCount, Reproduces, Reproducible, SlotsOk, Typed, AllMarked, Suits;
    Exchange(t, data, ack, usable, c, now, initial, es, acks, kindOf);
    FrameEnd(t, c, now, es, kindOf);
  }

  lemma SettledIs(t: Types, slots: seq<Slot>, held: seq<Entry>, now: int, kindOf: int -> nat)
    requires Settled(t, slots, held, now, kindOf)
    ensures SlotsOk(t, slots) && Typed(slots, kindOf)
  {
  }

  lemma NothingHeld(t: Types, slots: seq<Slot>, now: int, kindOf: int -> nat)
    requires TypesOk(t) && |slots| == MAX_ENTITIES && forall k | 0 <= k < MAX_ENTITIES :: slots[k].life == Gone
    ensures Settled(t, slots, [], now, kindOf)
  {
  }
}
