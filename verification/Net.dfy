/** The snapshot delta codec of the network layer: a sender encodes its current snapshot against
    the last one the receiver acknowledged, and the receiver applies it to the entities it mirrors. */
module Net {
  import opened Lz4Block
  import opened Slices

  const COMPONENTS := 64
  const ENTITY_TYPES := 32
  const MAX_ENTITIES := 32
  const SNAPSHOT_BYTES := 1024
  const HEADER := 8

  /** The registered entity types: which components are replicated, and how large components are. */
  datatype Types = Types(masks: seq<seq<bool>>, sizes: seq<nat>)

  ghost predicate TypesOk(t: Types) {
    |t.masks| == ENTITY_TYPES && |t.sizes| == COMPONENTS && forall k | 0 <= k < ENTITY_TYPES :: |t.masks[k]| == COMPONENTS
  }

  /** A mirrored entity in a snapshot: its type, its sequence number, its replicated bytes. */
  datatype Entry = Entry(kind: nat, sequence: nat, data: seq<byte>)

  // --------------------------------------------------------------- components

  ghost predicate Fits(t: Types, comps: seq<seq<byte>>) {
    |t.sizes| == COMPONENTS && |comps| == COMPONENTS && forall c | 0 <= c < COMPONENTS :: |comps[c]| == t.sizes[c]
  }

  /** The replicated components from c on, one after the other. */
  function Gather(mask: seq<bool>, comps: seq<seq<byte>>, c: nat): seq<byte>
    requires |mask| == COMPONENTS && |comps| == COMPONENTS && c <= COMPONENTS
    decreases COMPONENTS - c
  {
    if c == COMPONENTS then [] else (if mask[c] then comps[c] else []) + Gather(mask, comps, c + 1)
  }

  /** replicated_size, from component c on */
  function Replicated(mask: seq<bool>, sizes: seq<nat>, c: nat): nat
    requires |mask| == COMPONENTS && |sizes| == COMPONENTS && c <= COMPONENTS
    decreases COMPONENTS - c
  {
    if c == COMPONENTS then 0 else (if mask[c] then sizes[c] else 0) + Replicated(mask, sizes, c + 1)
  }

  function SizeOf(t: Types, kind: nat): nat
    requires TypesOk(t) && kind < ENTITY_TYPES
  {
    Replicated(t.masks[kind], t.sizes, 0)
  }

  lemma {:induction false} GatherSize(t: Types, mask: seq<bool>, comps: seq<seq<byte>>, c: nat)
    requires |mask| == COMPONENTS && Fits(t, comps) && c <= COMPONENTS
    ensures |Gather(mask, comps, c)| == Replicated(mask, t.sizes, c)
    decreases COMPONENTS - c
  {
    if c < COMPONENTS { GatherSize(t, mask, comps, c + 1); }
  }

  /** Writing replicated bytes back into the components, from c on. */
  method Scatter(t: Types, mask: seq<bool>, comps0: seq<seq<byte>>, bytes: seq<byte>, at: nat) returns (comps: seq<seq<byte>>, end: nat)
    requires |mask| == COMPONENTS && Fits(t, comps0) && at + Replicated(mask, t.sizes, 0) <= |bytes|
    ensures Fits(t, comps) && end == at + Replicated(mask, t.sizes, 0)
    ensures Gather(mask, comps, 0) == bytes[at..end]
    ensures forall c | 0 <= c < COMPONENTS && !mask[c] :: comps[c] == comps0[c]
  {
    comps, end := comps0, at;
    for i := 0 to COMPONENTS
      invariant Scattered(t, mask, comps0, comps, bytes, at, end, i)
    {
      var next := end + (if mask[i] then t.sizes[i] else 0);
      ScatterStep(t, mask, comps0, comps, bytes, at, end, i, next);
      if mask[i] {
        comps := comps[i := bytes[end..next]];
        end := next;
      }
    }
    GatherSplit(mask, comps, COMPONENTS);
  }

  /** The components below c are written, from the bytes up to `end`. */
  ghost predicate Scattered(t: Types, mask: seq<bool>, comps0: seq<seq<byte>>, comps: seq<seq<byte>>, bytes: seq<byte>, at: nat, end: nat, c: nat) {
    && |mask| == COMPONENTS && |comps0| == COMPONENTS && Fits(t, comps) && c <= COMPONENTS
    && at <= end && end + Replicated(mask, t.sizes, c) == at + Replicated(mask, t.sizes, 0) <= |bytes|
    && (forall k | 0 <= k < COMPONENTS && (!mask[k] || c <= k) :: comps[k] == comps0[k])
    && GatherTo(mask, comps, c) == bytes[at..end]
  }

  lemma ScatterStep(t: Types, mask: seq<bool>, comps0: seq<seq<byte>>, comps: seq<seq<byte>>, bytes: seq<byte>, at: nat, end: nat, c: nat, next: nat)
    requires Scattered(t, mask, comps0, comps, bytes, at, end, c) && c < COMPONENTS && next == end + (if mask[c] then t.sizes[c] else 0)
    ensures end <= next <= |bytes|
    ensures Scattered(t, mask, comps0, if mask[c] then comps[c := bytes[end..next]] else comps, bytes, at, next, c + 1)
  {
    if mask[c] {
      GatherToSame(mask, comps, comps[c := bytes[end..next]], c);
      SliceJoin(bytes, at, end, next);
    }
  }

  /** The replicated components below c. */
  ghost function GatherTo(mask: seq<bool>, comps: seq<seq<byte>>, c: nat): seq<byte>
    requires |mask| == COMPONENTS && |comps| == COMPONENTS && c <= COMPONENTS
  {
    if c == 0 then [] else GatherTo(mask, comps, c - 1) + (if mask[c - 1] then comps[c - 1] else [])
  }

  lemma {:induction false} GatherToSame(mask: seq<bool>, a: seq<seq<byte>>, b: seq<seq<byte>>, c: nat)
    requires |mask| == COMPONENTS && |a| == COMPONENTS && |b| == COMPONENTS && c <= COMPONENTS
    requires forall k | 0 <= k < c :: a[k] == b[k]
    ensures GatherTo(mask, a, c) == GatherTo(mask, b, c)
  {
    if c > 0 { GatherToSame(mask, a, b, c - 1); }
  }

  function Piece(mask: seq<bool>, comps: seq<seq<byte>>, c: nat): seq<byte>
    requires c < |mask| && c < |comps|
  {
    if mask[c] then comps[c] else []
  }

  lemma GatherStep(mask: seq<bool>, comps: seq<seq<byte>>, c: nat)
    requires |mask| == COMPONENTS && |comps| == COMPONENTS && c < COMPONENTS
    ensures Gather(mask, comps, c) == Piece(mask, comps, c) + Gather(mask, comps, c + 1)
    ensures GatherTo(mask, comps, c + 1) == GatherTo(mask, comps, c) + Piece(mask, comps, c)
  {
  }

  lemma {:induction false} GatherSplit(mask: seq<bool>, comps: seq<seq<byte>>, c: nat)
    requires |mask| == COMPONENTS && |comps| == COMPONENTS && c <= COMPONENTS
    ensures GatherTo(mask, comps, c) + Gather(mask, comps, c) == Gather(mask, comps, 0)
  {
    hide Gather, Piece;
    if c > 0 {
      hide GatherTo;
      var d := c - 1;
      GatherSplit(mask, comps, d);
      GatherStep(mask, comps, d);
      Regroup(GatherTo(mask, comps, d), Piece(mask, comps, d), Gather(mask, comps, c));
    }
  }

  // ------------------------------------------------------------------ bytes

  /** A non-negative 32-bit integer in memory. */
  function Int(n: nat): (s: seq<byte>)
    requires n < 0x8000_0000
    ensures |s| == 4
  {
    [n % 256, n / 256 % 256, n / 256 / 256 % 256, n / 256 / 256 / 256]
  }

  function ReadInt(s: seq<byte>, at: nat): nat
    requires at + 4 <= |s|
  {
    s[at] as int + 256 * (s[at + 1] as int + 256 * (s[at + 2] as int + 256 * s[at + 3] as int))
  }

  lemma IntRoundTrip(n: nat, s: seq<byte>, at: nat)
    requires n < 0x8000_0000 && at + 4 <= |s| && s[at..at + 4] == Int(n)
    ensures ReadInt(s, at) == n
  {
    assert s[at] == s[at..at + 4][0] && s[at + 1] == s[at..at + 4][1] && s[at + 2] == s[at..at + 4][2] && s[at + 3] == s[at..at + 4][3];
    var n1 := n / 256;
    var n2 := n1 / 256;
    assert n == 256 * n1 + n % 256 && n1 == 256 * n2 + n1 % 256 && n2 == 256 * (n2 / 256) + n2 % 256;
  }

  ghost predicate EntryOk(t: Types, e: Entry) {
    TypesOk(t) && e.kind < ENTITY_TYPES && e.sequence < 0x8000_0000 && |e.data| == SizeOf(t, e.kind)
  }

  /** entity_packet_header_t */
  function Header(e: Entry): (s: seq<byte>)
    requires e.kind < 0x8000_0000 && e.sequence < 0x8000_0000
    ensures |s| == HEADER
  {
    Int(e.kind) + Int(e.sequence)
  }

  lemma HeaderRoundTrip(e: Entry, s: seq<byte>, at: nat)
    requires e.kind < 0x8000_0000 && e.sequence < 0x8000_0000 && at + HEADER <= |s| && s[at..at + HEADER] == Header(e)
    ensures ReadInt(s, at) == e.kind && ReadInt(s, at + 4) == e.sequence
  {
    assert s[at..at + 4] == s[at..at + HEADER][..4];
    assert s[at + 4..at + 8] == s[at..at + HEADER][4..];
    IntRoundTrip(e.kind, s, at);
    IntRoundTrip(e.sequence, s, at + 4);
  }

  ghost predicate EntriesOk(t: Types, es: seq<Entry>) {
    forall i | 0 <= i < |es| :: EntryOk(t, es[i])
  }

  /** snapshot_t.data */
  ghost function Snapshot(t: Types, es: seq<Entry>): seq<byte>
    requires EntriesOk(t, es)
  {
    if es == [] then [] else Header(es[0]) + es[0].data + Snapshot(t, es[1..])
  }

  /** One entity of a packet: header, whether data follow, data. */
  ghost function PacketItem(e: Entry, diff: bool): seq<byte>
    requires e.kind < 0x8000_0000 && e.sequence < 0x8000_0000
  {
    Header(e) + [if diff then 1 else 0] + (if diff then e.data else [])
  }

  /** Whether the acknowledged entry at the front is of the same entity. */
  predicate SameEntity(es: seq<Entry>, acks: seq<Entry>)
    requires es != []
  {
    acks != [] && acks[0].sequence == es[0].sequence
  }

  /** The packet for a snapshot, given the acknowledged one. */
  ghost function Delta(t: Types, es: seq<Entry>, acks: seq<Entry>): seq<byte>
    requires EntriesOk(t, es)
  {
    if es == [] then []
    else if SameEntity(es, acks) then PacketItem(es[0], es[0].data != acks[0].data) + Delta(t, es[1..], acks[1..])
    else PacketItem(es[0], true) + Delta(t, es[1..], acks)
  }

  /** Which entities of the packet come with data. */
  ghost function Diffs(es: seq<Entry>, acks: seq<Entry>): (ds: seq<bool>)
    ensures |ds| == |es|
  {
    if es == [] then []
    else if SameEntity(es, acks) then [es[0].data != acks[0].data] + Diffs(es[1..], acks[1..])
    else [true] + Diffs(es[1..], acks)
  }

  /** All of these entities are in es too, in the same order. */
  ghost predicate InOrder(acks: seq<Entry>, es: seq<Entry>) {
    acks == [] || (es != [] && InOrder(if SameEntity(es, acks) then acks[1..] else acks, es[1..]))
  }

  /** The acknowledged snapshot has the entity with these bytes, and none before it that is gone since. */
  ghost predicate Known(e: Entry, before: seq<Entry>, acks: seq<Entry>, p: nat) {
    p < |acks| && acks[p].sequence == e.sequence && acks[p].data == e.data && InOrder(acks[..p], before)
  }

  /** An entity comes without data exactly if the acknowledged snapshot has it with the same bytes and
      all that stand before it there are still there: behind one that was dropped all are sent again. */
  lemma {:induction false} WithoutData(es: seq<Entry>, acks: seq<Entry>, j: nat)
    requires Distinct(es) && j < |es|
    ensures !Diffs(es, acks)[j] <==> exists p: nat :: Known(es[j], es[..j], acks, p)
    decreases |es|
  {
    if j == 0 {
      if acks != [] && !Diffs(es, acks)[0] {
        assert acks[..0] == [];
        assert Known(es[0], es[..0], acks, 0);
      }
      if p: nat :| Known(es[0], es[..0], acks, p) {
        NoneBefore(acks, p);
      }
    } else {
      var k := if SameEntity(es, acks) then 1 else 0;
      var rest, left := es[1..], acks[k..];
      assert rest[j - 1] == es[j] && rest[..j - 1] == es[1..j];
      WithoutData(rest, left, j - 1);
      if p: nat :| Known(es[j], es[..j], acks, p) {
        KnownStep(es, acks, j, k, p);
      }
      if q: nat :| Known(es[j], es[1..j], left, q) {
        KnownStep(es, acks, j, k, q + k);
      }
    }
  }

  lemma NoneBefore(acks: seq<Entry>, p: nat)
    requires p <= |acks| && InOrder(acks[..p], [])
    ensures p == 0
  {
    assert |acks[..p]| == p;
  }

  lemma KnownStep(es: seq<Entry>, acks: seq<Entry>, j: nat, k: nat, p: nat)
    requires Distinct(es) && 0 < j < |es| && k == (if SameEntity(es, acks) then 1 else 0)
    ensures Known(es[j], es[..j], acks, p) <==> p >= k && Known(es[j], es[1..j], acks[k..], p - k)
  {
    if p < |acks| {
      var a, e := acks[..p], es[..j];
      assert e[0] == es[0] && e[1..] == es[1..j];
      if p > 0 {
        assert a[0] == acks[0] && a[1..] == acks[1..][..p - 1];
      }
      if p >= k { assert acks[k..][..p - k] == acks[k..p]; }
    }
  }

  // ------------------------------------------------------------------ sender

  /** Reads a snapshot from position `at` on. */
  ghost predicate HoldsFrom(t: Types, s: seq<byte>, at: nat, es: seq<Entry>) {
    EntriesOk(t, es) && at <= |s| && s[at..] == Snapshot(t, es)
  }

  /** The front entry of what is left of a snapshot. */
  lemma FrontEntry(t: Types, s: seq<byte>, at: nat, es: seq<Entry>)
    requires HoldsFrom(t, s, at, es)
    ensures es == [] <==> at == |s|
    ensures es != [] ==>
      var e := es[0]; var d := at + HEADER; var n := d + |e.data|;
      && EntryOk(t, e) && n <= |s|
      && s[at..d] == Header(e) && s[d..n] == e.data
      && ReadInt(s, at) == e.kind && ReadInt(s, at + 4) == e.sequence
      && HoldsFrom(t, s, n, es[1..])
  {
    if es != [] {
      var e := es[0];
      var d := at + HEADER;
      var n := d + |e.data|;
      var rest := Snapshot(t, es[1..]);
      Pieces(s, at, Header(e), e.data, rest);
      HeaderRoundTrip(e, s, at);
    }
  }

  lemma Pieces(s: seq<byte>, at: nat, a: seq<byte>, b: seq<byte>, c: seq<byte>)
    requires at <= |s| && s[at..] == a + b + c
    ensures at + |a| + |b| <= |s| && s[at..at + |a|] == a && s[at + |a|..at + |a| + |b|] == b && s[at + |a| + |b|..] == c
  {
    var t := s[at..];
    assert t[..|a|] == a && t[|a|..|a| + |b|] == b && t[|a| + |b|..] == c;
  }

  /** Entities with the same sequence number have the same type. */
  ghost predicate KindsAgree(es: seq<Entry>, acks: seq<Entry>) {
    forall i, j | 0 <= i < |es| && 0 <= j < |acks| && es[i].sequence == acks[j].sequence :: es[i].kind == acks[j].kind
  }

  /** packet_add_entities: the current snapshot against the acknowledged one; `usable` says whether
      the ring of snapshots still holds the latter. */
  method AddEntities(t: Types, cur: seq<byte>, ack: seq<byte>, usable: bool, ghost es: seq<Entry>, ghost acks: seq<Entry>)
    returns (packet: seq<byte>)
    requires TypesOk(t) && HoldsFrom(t, cur, 0, es)
    requires if usable then HoldsFrom(t, ack, 0, acks) && KindsAgree(es, acks) else acks == []
    ensures packet == Delta(t, es, acks)
  {
    hide Header, SizeOf, ReadInt, HoldsFrom, Delta, KindsAgree;
    packet := [];
    var curIter: nat := 0;
    var ackEnd := |ack|;
    var ackIter: nat := if usable then 0 else ackEnd;
    ghost var left, ackLeft := es, acks;
    NothingLeft(t, ack);
    LeftOk(t, cur, 0, es);
    AllKindsSame(es, acks);
    while curIter < |cur|
      invariant HoldsFrom(t, cur, curIter, left) && HoldsFrom(t, ack, ackIter, ackLeft) && ackEnd == |ack| && KindsAgree(left, ackLeft)
      invariant EntriesOk(t, es) && EntriesOk(t, left) && packet + Delta(t, left, ackLeft) == Delta(t, es, acks)
      decreases |cur| - curIter
    {
      FrontEntry(t, cur, curIter, left);
      FrontEntry(t, ack, ackIter, ackLeft);
      FrontKinds(left, ackLeft);
      var kind, sequence := ReadInt(cur, curIter), ReadInt(cur, curIter + 4);
      var d := curIter + HEADER;
      var size := SizeOf(t, kind);
      var n := d + size;
      var diff := true;
      ghost var before, ackBefore := left, ackLeft;
      ghost var had := packet;
      if ackIter < ackEnd {
        if ReadInt(ack, ackIter + 4) == sequence {
          var ad := ackIter + HEADER;
          var an := ad + size;
          diff := cur[d..n] != ack[ad..an];
          ackIter := an;
          ackLeft := ackLeft[1..];
        }
      }
      packet := packet + cur[curIter..d] + [if diff then 1 else 0] + (if diff then cur[d..n] else []);
      curIter := n;
      left := left[1..];
      DeltaStep(t, before, ackBefore, diff, had, packet);
      KindsRest(before, ackBefore);
      LeftOk(t, cur, curIter, left);
    }
    FrontEntry(t, cur, curIter, left);
    DeltaNone(t, ackLeft);
  }

  lemma NothingLeft(t: Types, s: seq<byte>)
    ensures HoldsFrom(t, s, |s|, [])
  {
  }

  lemma AllKindsSame(es: seq<Entry>, acks: seq<Entry>)
    ensures acks == [] ==> KindsAgree(es, acks)
  {
  }

  lemma LeftOk(t: Types, s: seq<byte>, at: nat, es: seq<Entry>)
    requires HoldsFrom(t, s, at, es)
    ensures EntriesOk(t, es) && at <= |s|
  {
  }

  lemma FrontKinds(es: seq<Entry>, acks: seq<Entry>)
    requires KindsAgree(es, acks)
    ensures es != [] && acks != [] && acks[0].sequence == es[0].sequence ==> acks[0].kind == es[0].kind
  {
  }

  lemma KindsRest(es: seq<Entry>, acks: seq<Entry>)
    requires KindsAgree(es, acks) && es != []
    ensures KindsAgree(es[1..], acks)
    ensures acks != [] ==> KindsAgree(es[1..], acks[1..])
  {
  }

  lemma DeltaNone(t: Types, acks: seq<Entry>)
    ensures Delta(t, [], acks) == []
  {
  }

  lemma DeltaStep(t: Types, es: seq<Entry>, acks: seq<Entry>, diff: bool, had: seq<byte>, now: seq<byte>)
    requires EntriesOk(t, es) && es != [] && EntryOk(t, es[0])
    requires diff == (SameEntity(es, acks) ==> es[0].data != acks[0].data)
    requires now == had + Header(es[0]) + [if diff then 1 else 0] + (if diff then es[0].data else [])
    ensures had + Delta(t, es, acks) == now + Delta(t, es[1..], if SameEntity(es, acks) then acks[1..] else acks)
  {
    hide Header;
    var rest := Delta(t, es[1..], if SameEntity(es, acks) then acks[1..] else acks);
    assert Delta(t, es, acks) == PacketItem(es[0], diff) + rest;
    assert now == had + PacketItem(es[0], diff);
    Regroup(had, PacketItem(es[0], diff), rest);
  }

  // ---------------------------------------------------------------- receiver

  /** What a mapped entity's reference is good for: nothing any more; an entity; or an entity that
      the next ecs_update will take away. */
  datatype Life = Gone | Live | Removed

  /** entity_data_t, with the components of the entity it refers to. */
  datatype Slot = Slot(life: Life, remote: int, kind: nat, seen: int, comps: seq<seq<byte>>)

  /** The slot that the lookup for a sequence number finds: the first one with it. */
  function Lookup(slots: seq<Slot>, sequence: int, i: nat): (r: nat)
    requires i <= |slots|
    ensures i <= r <= |slots| && (r < |slots| ==> slots[r].remote == sequence)
    ensures forall k | i <= k < r :: slots[k].remote != sequence
    decreases |slots| - i
  {
    if i == |slots| || slots[i].remote == sequence then i else Lookup(slots, sequence, i + 1)
  }

  function FirstGone(slots: seq<Slot>, i: nat): (r: nat)
    requires i <= |slots|
    ensures i <= r <= |slots| && (r < |slots| ==> slots[r].life == Gone)
    ensures forall k | i <= k < r :: slots[k].life != Gone
    decreases |slots| - i
  {
    if i == |slots| || slots[i].life == Gone then i else FirstGone(slots, i + 1)
  }

  /** A live entity is the one its sequence number is looked up by. */
  ghost predicate SlotOk(t: Types, slots: seq<Slot>, k: nat)
    requires k < |slots|
  {
    slots[k].life != Gone ==> Lookup(slots, slots[k].remote, 0) == k && Fits(t, slots[k].comps) && slots[k].kind < ENTITY_TYPES
  }

  ghost predicate SlotsOk(t: Types, slots: seq<Slot>) {
    TypesOk(t) && |slots| == MAX_ENTITIES && forall k | 0 <= k < MAX_ENTITIES :: SlotOk(t, slots, k)
  }

  predicate HasLive(slots: seq<Slot>, sequence: int) {
    var k := Lookup(slots, sequence, 0);
    k < |slots| && slots[k].life != Gone
  }

  /** The mirrored entity for an entry has the entry's type and replicated bytes. */
  ghost predicate Mirrors(t: Types, slots: seq<Slot>, e: Entry) {
    && TypesOk(t) && HasLive(slots, e.sequence)
    && var slot := slots[Lookup(slots, e.sequence, 0)];
    && slot.kind == e.kind && e.kind < ENTITY_TYPES && Fits(t, slot.comps)
    && Gather(t.masks[e.kind], slot.comps, 0) == e.data
  }

  function LiveCount(slots: seq<Slot>): nat {
    if slots == [] then 0 else LiveCount(slots[..|slots| - 1]) + (if slots[|slots| - 1].life == Gone then 0 else 1)
  }

  /** How many of the entries are new to the receiver. */
  function NewCount(slots: seq<Slot>, es: seq<Entry>): nat {
    if es == [] then 0 else (if HasLive(slots, es[0].sequence) then 0 else 1) + NewCount(slots, es[1..])
  }

  lemma {:induction false} GoneExists(slots: seq<Slot>)
    requires LiveCount(slots) < |slots|
    ensures FirstGone(slots, 0) < |slots|
  {
    var n := |slots| - 1;
    if slots[n].life != Gone {
      GoneExists(slots[..n]);
      var k := FirstGone(slots[..n], 0);
      assert slots[k].life == Gone;
    }
  }

  lemma {:induction false} LiveCountSet(slots: seq<Slot>, k: nat, v: Slot)
    requires k < |slots|
    ensures LiveCount(slots[k := v]) + (if slots[k].life == Gone then 0 else 1) == LiveCount(slots) + (if v.life == Gone then 0 else 1)
  {
    var n := |slots| - 1;
    if k < n {
      assert slots[k := v][..n] == slots[..n][k := v];
      LiveCountSet(slots[..n], k, v);
    } else {
      assert slots[k := v][..n] == slots[..n];
    }
  }

  ghost predicate Distinct(es: seq<Entry>) {
    forall i, j | 0 <= i < j < |es| :: es[i].sequence != es[j].sequence
  }

  /** What became of the other mapped entities: nothing. */
  ghost predicate OthersSame(a: seq<Slot>, b: seq<Slot>, sequence: int) {
    |a| == |b| && forall k {:trigger b[k]} | 0 <= k < |a| && a[k].life != Gone && a[k].remote != sequence :: b[k] == a[k]
  }

  ghost predicate OnlyNew(a: seq<Slot>, b: seq<Slot>, sequence: int) {
    |a| == |b| && forall k {:trigger b[k]} | 0 <= k < |a| && b[k].life != Gone && b[k].remote != sequence :: a[k] == b[k]
  }

  lemma LookupIs(slots: seq<Slot>, sequence: int, k: nat)
    requires k < |slots| && slots[k].remote == sequence && forall i | 0 <= i < k :: slots[i].remote != sequence
    ensures Lookup(slots, sequence, 0) == k
  {
  }

  /** Slots that changed in ways no lookup sees. */
  ghost predicate SameRemotes(a: seq<Slot>, b: seq<Slot>) {
    |a| == |b| && forall i | 0 <= i < |a| :: a[i].remote == b[i].remote
  }

  lemma LookupSame(a: seq<Slot>, b: seq<Slot>, sequence: int)
    requires SameRemotes(a, b)
    ensures Lookup(a, sequence, 0) == Lookup(b, sequence, 0)
  {
    var k := Lookup(a, sequence, 0);
    if k < |a| { LookupIs(b, sequence, k); }
  }

  /** The slots in which `sequence` is looked up: same elsewhere, and sound. */
  ghost predicate Step(t: Types, a: seq<Slot>, b: seq<Slot>, sequence: int) {
    SlotsOk(t, b) && OthersSame(a, b, sequence) && OnlyNew(a, b, sequence)
  }

  /** Rewriting the slot that a sequence number finds, without bringing it to life or ending it. */
  lemma RewriteSlot(t: Types, a: seq<Slot>, k: nat, v: Slot)
    requires SlotsOk(t, a) && k < |a| && v.remote == a[k].remote && v.life == a[k].life
    requires v.kind == a[k].kind && (v.comps == a[k].comps || Fits(t, v.comps))
    ensures Step(t, a, a[k := v], v.remote) && LiveCount(a[k := v]) == LiveCount(a) && SameRemotes(a, a[k := v])
    ensures Lookup(a[k := v], v.remote, 0) == Lookup(a, v.remote, 0)
    ensures HasLive(a[k := v], v.remote) == HasLive(a, v.remote)
  {
    var b := a[k := v];
    hide Lookup, Fits;
    LiveCountSet(a, k, v);
    LookupSame(a, b, v.remote);
    forall i: nat | i < |b| ensures SlotOk(t, b, i) {
      assert SlotOk(t, a, i);
      LookupSame(a, b, b[i].remote);
    }
  }

  /** A new entity in the first slot that is free. */
  lemma PlaceSlot(t: Types, a: seq<Slot>, v: Slot)
    requires SlotsOk(t, a) && !HasLive(a, v.remote) && FirstGone(a, 0) < |a|
    requires v.life == Live && Fits(t, v.comps) && v.kind < ENTITY_TYPES
    ensures var j := FirstGone(a, 0); var b := a[j := v];
      && Step(t, a, b, v.remote) && LiveCount(b) == LiveCount(a) + 1 && Lookup(b, v.remote, 0) == j && HasLive(b, v.remote)
  {
    var j := FirstGone(a, 0);
    var b := a[j := v];
    hide Fits;
    LiveCountSet(a, j, v);
    assert Lookup(a, v.remote, 0) >= j;
    LookupIs(b, v.remote, j);
    forall i: nat | i < |b| ensures SlotOk(t, b, i) {
      assert SlotOk(t, a, i);
      if i != j && b[i].life != Gone {
        if b[i].remote == v.remote { assert false; }
        LookupIs(b, b[i].remote, i);
      }
    }
  }

  lemma StepTwice(t: Types, a: seq<Slot>, b: seq<Slot>, c: seq<Slot>, sequence: int)
    requires Step(t, a, b, sequence) && Step(t, b, c, sequence)
    ensures Step(t, a, c, sequence)
  {
    forall k {:trigger c[k]} | 0 <= k < |a| && a[k].life != Gone && a[k].remote != sequence ensures c[k] == a[k] {
      assert b[k] == a[k];
    }
    forall k {:trigger c[k]} | 0 <= k < |a| && c[k].life != Gone && c[k].remote != sequence ensures a[k] == c[k] {
      assert b[k] == c[k];
    }
  }

  class Connection {
    const entities: array<Slot>

    /** packet_read_entities, when there is room for the new entities: whatever was added or dropped
        since the acknowledged snapshot, the receiver's live entities are then those of the sender's
        current one, exactly if no other live entity was marked earlier in the same frame, none of the
        snapshot's was removed in it, and those that come without data have it already. */
    method ReadEntities(t: Types, packet: seq<byte>, now: int, initial: int -> seq<seq<byte>>, ghost es: seq<Entry>, ghost acks: seq<Entry>, ghost kindOf: int -> nat)
      requires EntriesOk(t, es) && Distinct(es) && packet == Delta(t, es, acks)
      requires SlotsOk(t, entities[..]) && Typed(entities[..], kindOf) && EntriesTyped(es, kindOf)
      requires LiveCount(entities[..]) + NewCount(entities[..], es) <= MAX_ENTITIES
      requires forall j | 0 <= j < |es| :: Fits(t, initial(es[j].sequence))
      modifies entities
      ensures SlotsOk(t, entities[..])
      ensures Reproduces(t, entities[..], es) <==> Reproducible(t, old(entities[..]), es, acks, now, initial)
      ensures Typed(entities[..], kindOf) && AllMarked(entities[..], now) && OthersSwept(old(entities[..]), entities[..], es, now)
      ensures LiveCount(entities[..]) == LiveCount(old(entities[..])) + NewCount(old(entities[..]), es)
    {
      hide LiveCount, Fits, SlotsOk, Delta, Reading, NewCount, EntryOk, Diffs, Base, Left, Typed, Distinct, EntriesTyped, AllMarked, OthersSwept, Reproduces, Reproducible;
      var iter: nat := 0;
      ghost var i: nat, ackLeft := 0, acks;
      ghost var was, ds := entities[..], Diffs(es, acks);
      StartReading(t, was, es, ds, now, initial, kindOf);
      AllLeft(t, packet, es, acks);
      while iter < |packet|
        invariant iter <= |packet| && Left(t, packet, iter, es, i, ackLeft, ds)
        invariant Reading(t, was, entities[..], es, i, ds, now, initial, kindOf)
        invariant i <= |es| && LiveCount(entities[..]) + NewCount(entities[..], es[i..]) == LiveCount(was) + NewCount(was, es)
        decreases |packet| - iter
      {
        iter, ackLeft := ReadNext(t, packet, iter, now, initial, was, es, i, ds, ackLeft, kindOf, LiveCount(was) + NewCount(was, es));
        i := i + 1;
      }
      NoneLeft(t, packet, iter, es, i, ackLeft, ds);
      ghost var read := entities[..];
      ReadingSlots(t, was, read, es, ds, now, initial, kindOf);
      NewCountNone(read);
      RemoveUnseen(t, now);
      AllRead(t, was, read, entities[..], es, acks, now, initial, kindOf);
    }

    /** One entity of the packet, in the course of all. */
    method ReadNext(t: Types, packet: seq<byte>, iter: nat, now: int, initial: int -> seq<seq<byte>>, ghost was: seq<Slot>, ghost es: seq<Entry>, ghost i: nat,
                    ghost ds: seq<bool>, ghost ackLeft: seq<Entry>, ghost kindOf: int -> nat, ghost count: nat) returns (next: nat, ghost ackLeft': seq<Entry>)
      requires iter < |packet| && Left(t, packet, iter, es, i, ackLeft, ds) && Reading(t, was, entities[..], es, i, ds, now, initial, kindOf) && i <= |es|
      requires LiveCount(entities[..]) + NewCount(entities[..], es[i..]) == count <= MAX_ENTITIES && Distinct(es)
      requires forall j | 0 <= j < |es| :: Fits(t, initial(es[j].sequence))
      modifies entities
      ensures iter < next <= |packet| && i < |es| && Left(t, packet, next, es, i + 1, ackLeft', ds) && Reading(t, was, entities[..], es, i + 1, ds, now, initial, kindOf)
      ensures LiveCount(entities[..]) + NewCount(entities[..], es[i + 1..]) == count
    {
      hide LiveCount, Fits, Step, SlotsOk, PacketItem, Reading, NewCount, HoldsItem, EntryOk, HasLive, KindKnown, Done, Left, Distinct;
      ghost var a := entities[..];
      ghost var diff;
      diff, ackLeft' := FrontLeft(t, packet, iter, es, i, ackLeft, ds);
      BeforeNext(t, was, a, es, i, ds, now, initial, kindOf);
      next := ReadEntity(t, packet, iter, now, initial, es[i], diff);
      AfterNext(t, was, a, entities[..], es, i, ds, now, initial, kindOf);
    }

    /** The last loop: entities that were not seen are marked for removal. */
    method RemoveUnseen(t: Types, now: int)
      requires entities.Length == MAX_ENTITIES
      modifies entities
      ensures forall k | 0 <= k < MAX_ENTITIES :: entities[k] == Swept(old(entities[k]), now)
    {
      for i := 0 to entities.Length
        invariant forall k | 0 <= k < i :: entities[k] == Swept(old(entities[k]), now)
        invariant forall k | i <= k < MAX_ENTITIES :: entities[k] == old(entities[k])
      {
        if entities[i].life != Gone {
          if entities[i].seen != now {
            entities[i] := entities[i].(life := Removed);
          }
        }
      }
    }

    /** The lookup loop of packet_read_entities. */
    method FindRemote(sequence: int) returns (r: nat)
      ensures r == Lookup(entities[..], sequence, 0)
    {
      r := 0;
      while r < entities.Length
        invariant r <= entities.Length && Lookup(entities[..], sequence, 0) == Lookup(entities[..], sequence, r)
      {
        assert entities[..][r] == entities[r];
        if entities[r].remote == sequence { return; }
        r := r + 1;
      }
    }

    method FindGone() returns (r: nat)
      ensures r == FirstGone(entities[..], 0)
    {
      r := 0;
      while r < entities.Length
        invariant r <= entities.Length && FirstGone(entities[..], 0) == FirstGone(entities[..], r)
      {
        assert entities[..][r] == entities[r];
        if entities[r].life == Gone { return; }
        r := r + 1;
      }
    }

    method Put(k: nat, v: Slot)
      requires k < entities.Length
      modifies entities
      ensures entities[..] == old(entities[..])[k := v]
    {
      entities[k] := v;
    }

    /** Finds the entity that a sequence number stands for, or adds one. */
    method FindOrAdd(t: Types, sequence: int, kind: nat, now: int, initial: int -> seq<seq<byte>>) returns (k: nat)
      requires SlotsOk(t, entities[..]) && kind < ENTITY_TYPES && Fits(t, initial(sequence))
      requires HasLive(entities[..], sequence) || LiveCount(entities[..]) < MAX_ENTITIES
      requires HasLive(entities[..], sequence) ==> entities[Lookup(entities[..], sequence, 0)].kind == kind
      modifies entities
      ensures Step(t, old(entities[..]), entities[..], sequence)
      ensures k < MAX_ENTITIES == entities.Length && k == Lookup(entities[..], sequence, 0) && HasLive(entities[..], sequence)
      ensures entities[k].seen == now && entities[k].kind == kind
      ensures if HasLive(old(entities[..]), sequence)
              then k == Lookup(old(entities[..]), sequence, 0) && entities[k].comps == old(entities[..])[k].comps && entities[k].life == old(entities[..])[k].life
              else entities[k].comps == initial(sequence) && entities[k].life == Live
      ensures LiveCount(entities[..]) == LiveCount(old(entities[..])) + (if HasLive(old(entities[..]), sequence) then 0 else 1)
    {
      hide LiveCount, FirstGone, Fits, Step, SlotOk;
      ghost var a := entities[..];
      k := FindRemote(sequence);
      if k < entities.Length {
        RewriteSlot(t, a, k, a[k].(seen := now));
        Put(k, entities[k].(seen := now));
      } else {
        SameStep(t, a, sequence);
      }
      ghost var b := entities[..];
      if k == entities.Length || entities[k].life == Gone {
        StepSlots(t, a, b, sequence);
        GoneExists(b);
        k := FindGone();
        PlaceSlot(t, b, Slot(Live, sequence, kind, now, initial(sequence)));
        Put(k, Slot(Live, sequence, kind, now, initial(sequence)));
        StepTwice(t, a, b, entities[..], sequence);
      }
    }

    /** One entity of a packet: finds or adds the mirrored entity, then writes what follows. */
    method ReadEntity(t: Types, packet: seq<byte>, iter: nat, now: int, initial: int -> seq<seq<byte>>, ghost e: Entry, ghost diff: bool)
      returns (next: nat)
      requires SlotsOk(t, entities[..]) && EntryOk(t, e) && Fits(t, initial(e.sequence))
      requires iter <= |packet| && HoldsItem(packet, iter, e, diff)
      requires HasLive(entities[..], e.sequence) || LiveCount(entities[..]) < MAX_ENTITIES
      requires KindKnown(entities[..], e)
      modifies entities
      ensures next == iter + |PacketItem(e, diff)| && iter < next <= |packet|
      ensures Step(t, old(entities[..]), entities[..], e.sequence)
      ensures Done(t, old(entities[..]), entities[..], e, diff, now, initial)
      ensures LiveCount(entities[..]) == LiveCount(old(entities[..])) + (if HasLive(old(entities[..]), e.sequence) then 0 else 1)
    {
      hide LiveCount, Fits, Step, SlotOk, ReadInt, Header, Gather, HoldsItem, EntryOk;
      ghost var a := entities[..];
      ItemRead(t, packet, iter, e, diff);
      var kind, sequence := ReadInt(packet, iter), ReadInt(packet, iter + 4);
      var k := FindOrAdd(t, sequence, kind, now, initial);
      ghost var b := entities[..];
      StepSlots(t, a, b, sequence);
      var follows := packet[iter + HEADER] != 0;
      next := iter + HEADER + 1;
      LiveSlot(t, b, k);
      if follows {
        next := WriteData(t, packet, k, kind, next, sequence);
        StepTwice(t, a, b, entities[..], sequence);
      }
    }

    /** The replicated components of the entity in slot k. */
    method WriteData(t: Types, packet: seq<byte>, k: nat, kind: nat, at: nat, ghost sequence: int) returns (next: nat)
      requires SlotsOk(t, entities[..]) && HasLive(entities[..], sequence) && k == Lookup(entities[..], sequence, 0) && k < entities.Length
      requires TypesOk(t) && kind < ENTITY_TYPES && entities[k].kind == kind && at + Replicated(t.masks[kind], t.sizes, 0) <= |packet|
      modifies entities
      ensures next == at + Replicated(t.masks[kind], t.sizes, 0)
      ensures Step(t, old(entities[..]), entities[..], sequence) && LiveCount(entities[..]) == LiveCount(old(entities[..]))
      ensures HasLive(entities[..], sequence) && k == Lookup(entities[..], sequence, 0)
      ensures entities[k] == old(entities[k]).(comps := entities[k].comps) && Fits(t, entities[k].comps)
      ensures Gather(t.masks[kind], entities[k].comps, 0) == packet[at..next]
    {
      hide LiveCount, Fits, Step, SlotsOk, Gather;
      ghost var b := entities[..];
      LiveSlot(t, b, k);
      var comps;
      comps, next := Scatter(t, t.masks[kind], entities[k].comps, packet, at);
      RewriteSlot(t, b, k, b[k].(comps := comps));
      Put(k, entities[k].(comps := comps));
    }
  }

  // -------------------------------------------------- reading a whole packet

  /** The packet from iter on is for the snapshot's entities from the i-th on. */
  ghost predicate Left(t: Types, packet: seq<byte>, iter: nat, es: seq<Entry>, i: nat, ackLeft: seq<Entry>, ds: seq<bool>) {
    && i <= |es| == |ds| && iter <= |packet| && EntriesOk(t, es[i..])
    && packet[iter..] == Delta(t, es[i..], ackLeft) && ds[i..] == Diffs(es[i..], ackLeft)
  }

  lemma AllLeft(t: Types, packet: seq<byte>, es: seq<Entry>, acks: seq<Entry>)
    requires EntriesOk(t, es) && packet == Delta(t, es, acks)
    ensures Left(t, packet, 0, es, 0, acks, Diffs(es, acks)) && es[0..] == es
  {
    hide Delta, Diffs, EntryOk;
    assert es[0..] == es && packet[0..] == packet && Diffs(es, acks)[0..] == Diffs(es, acks);
  }

  lemma NoneLeft(t: Types, packet: seq<byte>, iter: nat, es: seq<Entry>, i: nat, ackLeft: seq<Entry>, ds: seq<bool>)
    requires Left(t, packet, iter, es, i, ackLeft, ds) && iter == |packet|
    ensures i == |es| && es[i..] == []
  {
    hide Delta, Diffs, EntryOk;
    DeltaEmpty(t, packet, iter, es[i..], ackLeft);
  }

  lemma FrontLeft(t: Types, packet: seq<byte>, iter: nat, es: seq<Entry>, i: nat, ackLeft: seq<Entry>, ds: seq<bool>) returns (diff: bool, ackLeft': seq<Entry>)
    requires Left(t, packet, iter, es, i, ackLeft, ds) && iter < |packet|
    ensures i < |es| == |ds| && EntryOk(t, es[i]) && diff == ds[i] && HoldsItem(packet, iter, es[i], diff)
    ensures iter + |PacketItem(es[i], diff)| <= |packet| && Left(t, packet, iter + |PacketItem(es[i], diff)|, es, i + 1, ackLeft', ds)
  {
    hide Delta, Diffs, EntryOk, HoldsItem, PacketItem;
    diff := DeltaFront(t, packet, iter, es[i..], ackLeft);
    Rest(es, i);
    Rest(ds, i);
    EntryAt(t, es[i..], 0);
    ackLeft' := if SameEntity(es[i..], ackLeft) then ackLeft[1..] else ackLeft;
  }

  lemma BeforeNext(t: Types, was: seq<Slot>, a: seq<Slot>, es: seq<Entry>, i: nat, ds: seq<bool>, now: int, initial: int -> seq<seq<byte>>, kindOf: int -> nat)
    requires Reading(t, was, a, es, i, ds, now, initial, kindOf) && i < |es|
    ensures SlotsOk(t, a) && KindKnown(a, es[i])
    ensures NewCount(a, es[i..]) == (if HasLive(a, es[i].sequence) then 0 else 1) + NewCount(a, es[i + 1..])
  {
    hide Reading, SlotsOk, KindKnown, HasLive;
    ReadingFront(t, was, a, es, i, ds, now, initial, kindOf);
    Rest(es, i);
    NewCountFront(a, es[i..]);
  }

  lemma AfterNext(t: Types, was: seq<Slot>, a: seq<Slot>, b: seq<Slot>, es: seq<Entry>, i: nat, ds: seq<bool>, now: int, initial: int -> seq<seq<byte>>, kindOf: int -> nat)
    requires Reading(t, was, a, es, i, ds, now, initial, kindOf) && i < |es| && Distinct(es) && SlotsOk(t, a)
    requires Step(t, a, b, es[i].sequence) && i < |ds| && Done(t, a, b, es[i], ds[i], now, initial)
    ensures Reading(t, was, b, es, i + 1, ds, now, initial, kindOf) && NewCount(b, es[i + 1..]) == NewCount(a, es[i + 1..])
  {
    hide Reading, SlotsOk, Step, Done;
    ReadingStep(t, was, a, b, es, i, ds, now, initial, kindOf);
    LaterDistinct(es, i, es[i + 1..]);
    NewCountStep(t, a, b, es[i].sequence, es[i + 1..]);
  }

  lemma LaterDistinct(es: seq<Entry>, i: nat, later: seq<Entry>)
    requires Distinct(es) && i < |es| && later == es[i + 1..]
    ensures forall j | 0 <= j < |later| :: later[j].sequence != es[i].sequence
  {
  }

  ghost predicate SeenAmong(sequence: int, es: seq<Entry>, i: nat) {
    exists j :: 0 <= j < i && j < |es| && es[j].sequence == sequence
  }

  /** The replicated bytes that the entity of an entry has before the packet is read, or a new one gets. */
  ghost function Base(t: Types, was: seq<Slot>, e: Entry, initial: int -> seq<seq<byte>>): seq<byte> {
    var comps := if HasLive(was, e.sequence) then was[Lookup(was, e.sequence, 0)].comps else initial(e.sequence);
    if TypesOk(t) && e.kind < ENTITY_TYPES && Fits(t, comps) then Gather(t.masks[e.kind], comps, 0) else []
  }

  /** The entry was read: its entity was marked in this frame, has the data if it came with them and
      otherwise what it had, and lives if it did or is new. */
  ghost predicate Done(t: Types, was: seq<Slot>, slots: seq<Slot>, e: Entry, diff: bool, now: int, initial: int -> seq<seq<byte>>) {
    && TypesOk(t) && HasLive(slots, e.sequence)
    && var slot := slots[Lookup(slots, e.sequence, 0)];
    && slot.seen == now && slot.kind == e.kind && e.kind < ENTITY_TYPES && Fits(t, slot.comps)
    && Gather(t.masks[e.kind], slot.comps, 0) == (if diff then e.data else Base(t, was, e, initial))
    && slot.life == (if HasLive(was, e.sequence) then was[Lookup(was, e.sequence, 0)].life else Live)
  }

  ghost predicate KindKnown(slots: seq<Slot>, e: Entry) {
    HasLive(slots, e.sequence) ==> slots[Lookup(slots, e.sequence, 0)].kind == e.kind
  }

  /** A sequence number stands for one entity for good, and an entity has one type for good. */
  ghost predicate Typed(slots: seq<Slot>, kindOf: int -> nat) {
    forall k | 0 <= k < |slots| && slots[k].life != Gone :: slots[k].kind == kindOf(slots[k].remote)
  }

  ghost predicate EntriesTyped(es: seq<Entry>, kindOf: int -> nat) {
    forall j | 0 <= j < |es| :: es[j].kind == kindOf(es[j].sequence)
  }

  lemma TypedKnown(slots: seq<Slot>, kindOf: int -> nat, e: Entry)
    requires Typed(slots, kindOf) && e.kind == kindOf(e.sequence)
    ensures KindKnown(slots, e)
  {
  }

  /** When a packet brings about the snapshot it was made for. */
  ghost predicate Reproducible(t: Types, slots: seq<Slot>, es: seq<Entry>, acks: seq<Entry>, now: int, initial: int -> seq<seq<byte>>) {
    OnlyMarked(slots, es, now) && NoneEnding(slots, es) && UnchangedHeld(t, slots, es, acks, initial)
  }

  /** Entities that the packet is not about were removed, unless they were marked in this frame. */
  ghost predicate OthersSwept(was: seq<Slot>, slots: seq<Slot>, es: seq<Entry>, now: int) {
    |was| == |slots| && forall k {:trigger slots[k]} | 0 <= k < |slots| && was[k].life != Gone && !SeenAmong(was[k].remote, es, |es|) :: slots[k] == Swept(was[k], now)
  }

  /** Whoever lives was marked in this frame. */
  ghost predicate AllMarked(slots: seq<Slot>, now: int) {
    forall k {:trigger slots[k]} | 0 <= k < |slots| && slots[k].life == Live :: slots[k].seen == now
  }

  /** No live entity was marked in this frame except ones the packet is about. */
  ghost predicate OnlyMarked(slots: seq<Slot>, es: seq<Entry>, now: int) {
    forall k {:trigger slots[k]} | 0 <= k < |slots| && slots[k].life == Live && slots[k].seen == now :: SeenAmong(slots[k].remote, es, |es|)
  }

  /** No entity that the packet is about was removed earlier in this frame. */
  ghost predicate NoneEnding(slots: seq<Slot>, es: seq<Entry>) {
    forall j | 0 <= j < |es| :: Lives(slots, es[j].sequence)
  }

  ghost predicate Lives(slots: seq<Slot>, sequence: int) {
    HasLive(slots, sequence) ==> slots[Lookup(slots, sequence, 0)].life == Live
  }

  /** Entities that come without data have it already. */
  ghost predicate UnchangedHeld(t: Types, slots: seq<Slot>, es: seq<Entry>, acks: seq<Entry>, initial: int -> seq<seq<byte>>) {
    forall j | 0 <= j < |es| :: Diffs(es, acks)[j] || Base(t, slots, es[j], initial) == es[j].data
  }

  /** Mapped entities that the packet is not about are as they were. */
  ghost predicate OthersKept(was: seq<Slot>, slots: seq<Slot>, es: seq<Entry>) {
    && |was| == |slots|
    && (forall k {:trigger slots[k]} | 0 <= k < |slots| && was[k].life != Gone && !SeenAmong(was[k].remote, es, |es|) :: slots[k] == was[k])
    && (forall k {:trigger slots[k]} | 0 <= k < |slots| && slots[k].life != Gone && !SeenAmong(slots[k].remote, es, |es|) :: slots[k] == was[k])
  }

  /** What a sequence number is looked up to is as it was. */
  ghost predicate SameLookup(was: seq<Slot>, slots: seq<Slot>, sequence: int) {
    && (HasLive(was, sequence) <==> HasLive(slots, sequence))
    && (HasLive(was, sequence) ==> was[Lookup(was, sequence, 0)] == slots[Lookup(slots, sequence, 0)])
  }

  /** After i entries: those are done, the entities of the others and of no entry are as they were. */
  ghost predicate Reading(t: Types, was: seq<Slot>, slots: seq<Slot>, es: seq<Entry>, i: nat, ds: seq<bool>, now: int, initial: int -> seq<seq<byte>>, kindOf: int -> nat) {
    && SlotsOk(t, slots) && i <= |es| == |ds|
    && (forall j | 0 <= j < i :: Done(t, was, slots, es[j], ds[j], now, initial))
    && OthersKept(was, slots, es) && Typed(slots, kindOf) && EntriesTyped(es, kindOf)
    && (forall j | i <= j < |es| :: SameLookup(was, slots, es[j].sequence))
  }

  lemma StepMirrors(t: Types, a: seq<Slot>, b: seq<Slot>, sequence: int, other: int)
    requires SlotsOk(t, a) && Step(t, a, b, sequence) && other != sequence
    ensures SameLookup(a, b, other)
  {
    hide Fits;
    var k, l := Lookup(a, other, 0), Lookup(b, other, 0);
    if HasLive(a, other) {
      assert b[k] == a[k];
      assert SlotOk(t, b, k);
    }
    if HasLive(b, other) {
      assert a[l] == b[l];
      assert SlotOk(t, a, l);
    }
  }

  lemma ReadingStep(t: Types, was: seq<Slot>, a: seq<Slot>, b: seq<Slot>, es: seq<Entry>, i: nat, ds: seq<bool>, now: int, initial: int -> seq<seq<byte>>, kindOf: int -> nat)
    requires Reading(t, was, a, es, i, ds, now, initial, kindOf) && i < |es| && Distinct(es)
    requires Step(t, a, b, es[i].sequence) && Done(t, a, b, es[i], ds[i], now, initial)
    ensures Reading(t, was, b, es, i + 1, ds, now, initial, kindOf)
  {
    hide SlotsOk, Lookup, HasLive, Fits, Gather, KindKnown;
    forall j | 0 <= j < i + 1 ensures Done(t, was, b, es[j], ds[j], now, initial) {
      if j < i {
        assert Done(t, was, a, es[j], ds[j], now, initial);
        StepMirrors(t, a, b, es[i].sequence, es[j].sequence);
      } else {
        assert SameLookup(was, a, es[i].sequence);
      }
    }
    assert SeenAmong(es[i].sequence, es, |es|);
    KeptStep(was, a, b, es, es[i].sequence);
    StepTyped(t, a, b, es[i], kindOf);
    forall j | i + 1 <= j < |es| ensures SameLookup(was, b, es[j].sequence) {
      assert SameLookup(was, a, es[j].sequence);
      StepMirrors(t, a, b, es[i].sequence, es[j].sequence);
    }
  }

  lemma StepTyped(t: Types, a: seq<Slot>, b: seq<Slot>, e: Entry, kindOf: int -> nat)
    requires Typed(a, kindOf) && Step(t, a, b, e.sequence) && e.kind == kindOf(e.sequence)
    requires HasLive(b, e.sequence) && b[Lookup(b, e.sequence, 0)].kind == e.kind
    ensures Typed(b, kindOf)
  {
    hide Fits;
    forall k | 0 <= k < |b| && b[k].life != Gone ensures b[k].kind == kindOf(b[k].remote) {
      assert SlotOk(t, b, k);
      if b[k].remote != e.sequence { assert a[k] == b[k]; }
    }
  }

  lemma KeptStep(was: seq<Slot>, a: seq<Slot>, b: seq<Slot>, es: seq<Entry>, sequence: int)
    requires OthersKept(was, a, es) && OthersSame(a, b, sequence) && OnlyNew(a, b, sequence) && SeenAmong(sequence, es, |es|)
    ensures OthersKept(was, b, es)
  {
    hide SeenAmong;
    forall k {:trigger b[k]} | 0 <= k < |b| && was[k].life != Gone && !SeenAmong(was[k].remote, es, |es|) ensures b[k] == was[k] {
      assert a[k] == was[k];
    }
    forall k {:trigger b[k]} | 0 <= k < |b| && b[k].life != Gone && !SeenAmong(b[k].remote, es, |es|) ensures b[k] == was[k] {
      assert a[k] == b[k];
    }
  }

  /** What the receiver needs to read the next entry. */
  lemma ReadingFront(t: Types, was: seq<Slot>, slots: seq<Slot>, es: seq<Entry>, i: nat, ds: seq<bool>, now: int, initial: int -> seq<seq<byte>>, kindOf: int -> nat)
    requires Reading(t, was, slots, es, i, ds, now, initial, kindOf) && i < |es|
    ensures SlotsOk(t, slots) && KindKnown(slots, es[i])
  {
    hide SlotsOk;
    TypedKnown(slots, kindOf, es[i]);
  }

  lemma {:induction false} NewCountStep(t: Types, a: seq<Slot>, b: seq<Slot>, sequence: int, es: seq<Entry>)
    requires SlotsOk(t, a) && Step(t, a, b, sequence) && forall j | 0 <= j < |es| :: es[j].sequence != sequence
    ensures NewCount(b, es) == NewCount(a, es)
  {
    if es != [] {
      StepMirrors(t, a, b, sequence, es[0].sequence);
      NewCountStep(t, a, b, sequence, es[1..]);
    }
  }

  /** The receiver's live entities are those of the snapshot, with its replicated bytes. */
  ghost predicate Reproduces(t: Types, slots: seq<Slot>, es: seq<Entry>) {
    OwnReproduced(t, slots, es) && NoOthers(slots, es)
  }

  /** An entity that was not seen in this frame is marked for removal. */
  function Swept(slot: Slot, now: int): Slot {
    if slot.life != Gone && slot.seen != now then slot.(life := Removed) else slot
  }

  ghost predicate HoldsItem(packet: seq<byte>, iter: nat, e: Entry, diff: bool)
    requires iter <= |packet|
  {
    e.kind < 0x8000_0000 && e.sequence < 0x8000_0000 && PacketItem(e, diff) <= packet[iter..]
  }

  lemma ItemRead(t: Types, packet: seq<byte>, iter: nat, e: Entry, diff: bool)
    requires iter <= |packet| && HoldsItem(packet, iter, e, diff) && EntryOk(t, e)
    ensures iter + |PacketItem(e, diff)| <= |packet| && e.kind < ENTITY_TYPES && e.sequence < 0x8000_0000
    ensures ReadInt(packet, iter) == e.kind && ReadInt(packet, iter + 4) == e.sequence
    ensures iter + HEADER < |packet| && (packet[iter + HEADER] != 0 <==> diff)
    ensures var d := iter + HEADER + 1; var n := d + Replicated(t.masks[e.kind], t.sizes, 0);
      if diff then n == iter + |PacketItem(e, diff)| && packet[d..n] == e.data else d == iter + |PacketItem(e, diff)|
  {
    hide Header, ReadInt;
    var item := PacketItem(e, diff);
    var s := packet[iter..];
    assert packet[iter..iter + HEADER] == s[..HEADER] == item[..HEADER] == Header(e);
    HeaderRoundTrip(e, packet, iter);
    assert s[HEADER] == item[HEADER];
    if diff {
      var d := HEADER + 1;
      var n := d + |e.data|;
      assert s[d..n] == item[d..n] == e.data;
      assert packet[iter + d..iter + n] == s[d..n];
    }
  }

  lemma LiveSlot(t: Types, slots: seq<Slot>, k: nat)
    requires SlotsOk(t, slots) && k < |slots|
    ensures slots[k].life != Gone ==> Fits(t, slots[k].comps) && slots[k].kind < ENTITY_TYPES
  {
    assert SlotOk(t, slots, k);
  }

  lemma SameStep(t: Types, a: seq<Slot>, sequence: int)
    requires SlotsOk(t, a)
    ensures Step(t, a, a, sequence)
  {
  }

  lemma StepSlots(t: Types, a: seq<Slot>, b: seq<Slot>, sequence: int)
    requires Step(t, a, b, sequence)
    ensures SlotsOk(t, b)
  {
  }

  lemma EntryAt(t: Types, es: seq<Entry>, i: nat)
    requires EntriesOk(t, es) && i < |es|
    ensures EntryOk(t, es[i])
    ensures EntriesOk(t, es[i + 1..])
  {
  }

  /** The front of a packet: the item of the next entry. */
  lemma DeltaFront(t: Types, packet: seq<byte>, iter: nat, es: seq<Entry>, acks: seq<Entry>) returns (diff: bool)
    requires EntriesOk(t, es) && iter < |packet| && packet[iter..] == Delta(t, es, acks)
    ensures es != [] && HoldsItem(packet, iter, es[0], diff)
    ensures diff == Diffs(es, acks)[0] && Diffs(es, acks)[1..] == Diffs(es[1..], if SameEntity(es, acks) then acks[1..] else acks)
    ensures var n := iter + |PacketItem(es[0], diff)|;
      n <= |packet| && packet[n..] == Delta(t, es[1..], if SameEntity(es, acks) then acks[1..] else acks)
  {
    hide Header;
    if es == [] {
      diff := true;
    } else {
      assert EntryOk(t, es[0]);
      diff := SameEntity(es, acks) ==> es[0].data != acks[0].data;
      var item, s := PacketItem(es[0], diff), packet[iter..];
      var n := iter + |item|;
      assert s == item + Delta(t, es[1..], if SameEntity(es, acks) then acks[1..] else acks);
      assert packet[n..] == s[|item|..];
    }
  }

  lemma DeltaEmpty(t: Types, packet: seq<byte>, iter: nat, es: seq<Entry>, acks: seq<Entry>)
    requires EntriesOk(t, es) && iter == |packet| && packet[iter..] == Delta(t, es, acks)
    ensures es == []
  {
    hide Header;
  }

  lemma NewCountFront(slots: seq<Slot>, es: seq<Entry>)
    requires es != []
    ensures NewCount(slots, es) == (if HasLive(slots, es[0].sequence) then 0 else 1) + NewCount(slots, es[1..])
  {
  }

  lemma ReadingSlots(t: Types, was: seq<Slot>, slots: seq<Slot>, es: seq<Entry>, ds: seq<bool>, now: int, initial: int -> seq<seq<byte>>, kindOf: int -> nat)
    requires Reading(t, was, slots, es, |es|, ds, now, initial, kindOf)
    ensures |slots| == MAX_ENTITIES
  {
  }

  /** Marking the unseen entities leaves those of the snapshot, and any other that was marked before. */
  lemma AllRead(t: Types, was: seq<Slot>, a: seq<Slot>, b: seq<Slot>, es: seq<Entry>, acks: seq<Entry>, now: int, initial: int -> seq<seq<byte>>, kindOf: int -> nat)
    requires Reading(t, was, a, es, |es|, Diffs(es, acks), now, initial, kindOf) && |b| == |a|
    requires forall k | 0 <= k < |a| :: b[k] == Swept(a[k], now)
    ensures SlotsOk(t, b) && Typed(b, kindOf) && AllMarked(b, now) && OthersSwept(was, b, es, now) && LiveCount(b) == LiveCount(a)
    ensures Reproduces(t, b, es) <==> Reproducible(t, was, es, acks, now, initial)
  {
    hide Fits, Gather, SeenAmong, Diffs, Base;
    forall k: nat | k < |b| ensures SlotOk(t, b, k) {
      assert SlotOk(t, a, k);
      LookupSame(a, b, b[k].remote);
    }
    forall k {:trigger b[k]} | 0 <= k < |b| && was[k].life != Gone && !SeenAmong(was[k].remote, es, |es|) ensures b[k] == Swept(was[k], now) {
      assert a[k] == was[k];
    }
    SweptCount(a, b, now);
    SnapshotRead(t, was, a, b, es, acks, now, initial, kindOf);
    OthersRead(was, a, b, es, now);
  }

  lemma {:induction false} SweptCount(a: seq<Slot>, b: seq<Slot>, now: int)
    requires |a| == |b| && forall k | 0 <= k < |a| :: b[k] == Swept(a[k], now)
    ensures LiveCount(b) == LiveCount(a)
  {
    if a != [] { SweptCount(a[..|a| - 1], b[..|b| - 1], now); }
  }

  lemma NewCountNone(slots: seq<Slot>)
    ensures NewCount(slots, []) == 0
  {
  }

  /** The snapshot's own entities. */
  ghost predicate OwnReproduced(t: Types, slots: seq<Slot>, es: seq<Entry>) {
    forall j | 0 <= j < |es| :: Mirrors(t, slots, es[j]) && slots[Lookup(slots, es[j].sequence, 0)].life == Live
  }

  ghost predicate NoOthers(slots: seq<Slot>, es: seq<Entry>) {
    forall k {:trigger slots[k]} | 0 <= k < |slots| && slots[k].life == Live :: SeenAmong(slots[k].remote, es, |es|)
  }

  lemma SnapshotRead(t: Types, was: seq<Slot>, a: seq<Slot>, b: seq<Slot>, es: seq<Entry>, acks: seq<Entry>, now: int, initial: int -> seq<seq<byte>>, kindOf: int -> nat)
    requires Reading(t, was, a, es, |es|, Diffs(es, acks), now, initial, kindOf) && |b| == |a|
    requires forall k | 0 <= k < |a| :: b[k] == Swept(a[k], now)
    ensures OwnReproduced(t, b, es) <==> NoneEnding(was, es) && UnchangedHeld(t, was, es, acks, initial)
  {
    hide Fits, Gather, SeenAmong, Diffs, Base, SlotsOk, OthersKept;
    forall j | 0 <= j < |es|
      ensures Mirrors(t, b, es[j]) && b[Lookup(b, es[j].sequence, 0)].life == Live
        <==> Lives(was, es[j].sequence) && (Diffs(es, acks)[j] || Base(t, was, es[j], initial) == es[j].data)
    {
      assert Done(t, was, a, es[j], Diffs(es, acks)[j], now, initial);
      LookupSame(a, b, es[j].sequence);
    }
  }

  lemma OthersRead(was: seq<Slot>, a: seq<Slot>, b: seq<Slot>, es: seq<Entry>, now: int)
    requires OthersKept(was, a, es) && |b| == |a|
    requires forall k | 0 <= k < |a| :: b[k] == Swept(a[k], now)
    ensures NoOthers(b, es) <==> OnlyMarked(was, es, now)
  {
    hide SeenAmong;
    if OnlyMarked(was, es, now) {
      forall k {:trigger b[k]} | 0 <= k < |b| && b[k].life == Live ensures SeenAmong(b[k].remote, es, |es|) {
        assert a[k].seen == now;
        assert !SeenAmong(a[k].remote, es, |es|) ==> a[k] == was[k];
      }
    }
    if NoOthers(b, es) {
      forall k {:trigger was[k]} | 0 <= k < |was| && was[k].life == Live && was[k].seen == now ensures SeenAmong(was[k].remote, es, |es|) {
        assert !SeenAmong(was[k].remote, es, |es|) ==> a[k] == was[k];
        assert b[k] == Swept(a[k], now);
      }
    }
  }

  lemma StartReading(t: Types, slots: seq<Slot>, es: seq<Entry>, ds: seq<bool>, now: int, initial: int -> seq<seq<byte>>, kindOf: int -> nat)
    requires SlotsOk(t, slots) && Typed(slots, kindOf) && EntriesTyped(es, kindOf) && |ds| == |es|
    ensures Reading(t, slots, slots, es, 0, ds, now, initial, kindOf)
  {
    hide SlotsOk;
  }

  // ------------------------------------------------------ sender to receiver

  /** The whole exchange: packet_add_entities on one side, packet_read_entities on the other. */
  method Exchange(t: Types, cur: seq<byte>, ack: seq<byte>, usable: bool, c: Connection, now: int, initial: int -> seq<seq<byte>>,
                  ghost es: seq<Entry>, ghost acks: seq<Entry>, ghost kindOf: int -> nat)
    requires HoldsFrom(t, cur, 0, es) && Distinct(es) && TypesOk(t) && EntriesTyped(es, kindOf)
    requires if usable then HoldsFrom(t, ack, 0, acks) && EntriesTyped(acks, kindOf) else acks == []
    requires SlotsOk(t, c.entities[..]) && Typed(c.entities[..], kindOf)
    requires LiveCount(c.entities[..]) + NewCount(c.entities[..], es) <= MAX_ENTITIES
    requires forall j | 0 <= j < |es| :: Fits(t, initial(es[j].sequence))
    modifies c.entities
    ensures SlotsOk(t, c.entities[..]) && Typed(c.entities[..], kindOf) && AllMarked(c.entities[..], now)
    ensures OthersSwept(old(c.entities[..]), c.entities[..], es, now)
    ensures LiveCount(c.entities[..]) == LiveCount(old(c.entities[..])) + NewCount(old(c.entities[..]), es)
    ensures Reproduces(t, c.entities[..], es) <==> Reproducible(t, old(c.entities[..]), es, acks, now, initial)
  {
    TypedAgree(es, acks, kindOf);
    var packet := AddEntities(t, cur, ack, usable, es, acks);
    LeftOk(t, cur, 0, es);
    hide *;
    c.ReadEntities(t, packet, now, initial, es, acks, kindOf);
  }

  lemma TypedAgree(es: seq<Entry>, acks: seq<Entry>, kindOf: int -> nat)
    requires EntriesTyped(es, kindOf) && EntriesTyped(acks, kindOf)
    ensures KindsAgree(es, acks)
  {
  }
}
