/** The sender's snapshot of its entities, byte by byte, and what becomes of it at the receiver. */
module NetSnapshot {
  import opened Lz4Block
  import opened Slices
  import opened Net
  import opened NetRun

  // --------------------------------------------------------------- components

  /** The sizes of the replicated components below c, added up. */
  function Offset(mask: seq<bool>, sizes: seq<nat>, c: nat): nat
    requires |mask| == COMPONENTS && |sizes| == COMPONENTS && c <= COMPONENTS
  {
    if c == 0 then 0 else Offset(mask, sizes, c - 1) + (if mask[c - 1] then sizes[c - 1] else 0)
  }

  /** The replicated components of comps stand in s, each at its offset from position p. */
  ghost predicate Carries(mask: seq<bool>, sizes: seq<nat>, s: seq<byte>, p: nat, comps: seq<seq<byte>>) {
    && |mask| == COMPONENTS && |sizes| == COMPONENTS && |comps| == COMPONENTS
    && forall c: nat | c < COMPONENTS && mask[c] :: CarriesAt(mask, sizes, s, p, comps, c)
  }

  ghost predicate CarriesAt(mask: seq<bool>, sizes: seq<nat>, s: seq<byte>, p: nat, comps: seq<seq<byte>>, c: nat)
    requires |mask| == COMPONENTS && |sizes| == COMPONENTS && |comps| == COMPONENTS && c < COMPONENTS
  {
    var at := p + Offset(mask, sizes, c);
    at + sizes[c] <= |s| && s[at..at + sizes[c]] == comps[c]
  }

  lemma {:induction false} OffsetSplits(mask: seq<bool>, sizes: seq<nat>, c: nat)
    requires |mask| == COMPONENTS && |sizes| == COMPONENTS && c <= COMPONENTS
    ensures Offset(mask, sizes, c) + Replicated(mask, sizes, c) == Replicated(mask, sizes, 0)
  {
    if c > 0 { OffsetSplits(mask, sizes, c - 1); }
  }

  lemma {:induction false} GatheredBelow(t: Types, mask: seq<bool>, comps: seq<seq<byte>>, c: nat)
    requires |mask| == COMPONENTS && Fits(t, comps) && c <= COMPONENTS
    ensures |GatherTo(mask, comps, c)| == Offset(mask, t.sizes, c)
  {
    if c > 0 { GatheredBelow(t, mask, comps, c - 1); }
  }

  lemma GatherCarries(t: Types, mask: seq<bool>, comps: seq<seq<byte>>)
    requires |mask| == COMPONENTS && Fits(t, comps)
    ensures Carries(mask, t.sizes, Gather(mask, comps, 0), 0, comps)
  {
    hide Gather, GatherTo, Fits;
    FitsSizes(t, comps);
    var s := Gather(mask, comps, 0);
    forall c: nat | c < COMPONENTS && mask[c] ensures CarriesAt(mask, t.sizes, s, 0, comps, c) {
      GatheredBelow(t, mask, comps, c);
      GatherSplit(mask, comps, c);
      GatherStep(mask, comps, c);
      Middle(GatherTo(mask, comps, c), comps[c], Gather(mask, comps, c + 1));
    }
  }

  lemma FitsSizes(t: Types, comps: seq<seq<byte>>)
    requires Fits(t, comps)
    ensures |t.sizes| == COMPONENTS && |comps| == COMPONENTS && forall c | 0 <= c < COMPONENTS :: |comps[c]| == t.sizes[c]
  {
  }

  lemma Middle(a: seq<byte>, b: seq<byte>, c: seq<byte>)
    ensures (a + (b + c))[|a|..|a| + |b|] == b
  {
  }

  /** Components that gather to the same bytes are the same, as far as they are replicated. */
  lemma SameComponents(t: Types, mask: seq<bool>, a: seq<seq<byte>>, b: seq<seq<byte>>)
    requires |mask| == COMPONENTS && Fits(t, a) && Fits(t, b)
    requires Gather(mask, a, 0) == Gather(mask, b, 0)
    ensures forall c | 0 <= c < COMPONENTS && mask[c] :: a[c] == b[c]
  {
    hide Gather, Fits;
    GatherCarries(t, mask, a);
    GatherCarries(t, mask, b);
    FitsSizes(t, a);
    FitsSizes(t, b);
    forall c: nat | c < COMPONENTS && mask[c] ensures a[c] == b[c] {
      assert CarriesAt(mask, t.sizes, Gather(mask, a, 0), 0, a, c);
      assert CarriesAt(mask, t.sizes, Gather(mask, b, 0), 0, b, c);
    }
  }

  /** The inner loop of snapshot_entities. */
  method CopyComponents(mask: seq<bool>, comps: seq<seq<byte>>, data0: seq<byte>) returns (data: seq<byte>)
    requires |mask| == COMPONENTS && |comps| == COMPONENTS
    ensures data == data0 + Gather(mask, comps, 0)
  {
    data := data0;
    for c := 0 to COMPONENTS
      invariant data == data0 + GatherTo(mask, comps, c)
    {
      if mask[c] {
        data := data + comps[c];
      }
    }
    GatherSplit(mask, comps, COMPONENTS);
  }

  // ------------------------------------------------------------------ snapshot

  /** An entity of the sender's list. */
  datatype Local = Local(valid: bool, kind: nat, sequence: nat, comps: seq<seq<byte>>)

  ghost predicate LocalOk(t: Types, l: Local) {
    TypesOk(t) && l.kind < ENTITY_TYPES && l.sequence < 0x8000_0000 && Fits(t, l.comps)
  }

  ghost predicate LocalsOk(t: Types, locals: seq<Local>) {
    TypesOk(t) && forall i | 0 <= i < |locals| :: LocalOk(t, locals[i])
  }

  /** Where the record of entity k stands: behind those of the entities taken before it. */
  ghost function Position(t: Types, locals: seq<Local>, taken: seq<nat>, k: nat): nat
    requires LocalsOk(t, locals) && k <= |locals|
  {
    if k == 0 then 0
    else Position(t, locals, taken, k - 1) + (if k - 1 in taken then HEADER + SizeOf(t, locals[k - 1].kind) else 0)
  }

  /** Of the first n entities, all valid, those are taken whose record leaves a byte of the snapshot free. */
  ghost predicate Chosen(t: Types, locals: seq<Local>, taken: seq<nat>, n: nat) {
    && LocalsOk(t, locals) && n <= |locals|
    && (forall k: nat | k < n :: locals[k].valid)
    && (forall k: nat :: k in taken <==> k < n && ChosenAt(t, locals, taken, k))
  }

  ghost predicate ChosenAt(t: Types, locals: seq<Local>, taken: seq<nat>, k: nat)
    requires LocalsOk(t, locals)
  {
    k < |locals| && Position(t, locals, taken, k) + HEADER + SizeOf(t, locals[k].kind) < SNAPSHOT_BYTES
  }

  /** A little-endian number. */
  ghost predicate NumberAt(s: seq<byte>, p: nat, n: nat) {
    p + 4 <= |s| && n == s[p] as int + 0x100 * s[p + 1] as int + 0x1_0000 * s[p + 2] as int + 0x100_0000 * s[p + 3] as int
  }

  /** The record of an entity: its type, its sequence number, its replicated components. */
  ghost predicate RecordAt(t: Types, s: seq<byte>, p: nat, l: Local) {
    && LocalOk(t, l) && p + HEADER + Offset(t.masks[l.kind], t.sizes, COMPONENTS) <= |s|
    && NumberAt(s, p, l.kind) && NumberAt(s, p + 4, l.sequence)
    && Carries(t.masks[l.kind], t.sizes, s, p + HEADER, l.comps)
  }

  /** What a snapshot's entry says of an entity. */
  ghost predicate Tells(t: Types, e: Entry, l: Local) {
    && LocalOk(t, l) && e.kind == l.kind && e.sequence == l.sequence
    && e.data == Gather(t.masks[l.kind], l.comps, 0)
  }

  lemma SizeIsOffset(t: Types, kind: nat)
    requires TypesOk(t) && kind < ENTITY_TYPES
    ensures SizeOf(t, kind) == Offset(t.masks[kind], t.sizes, COMPONENTS)
  {
    OffsetSplits(t.masks[kind], t.sizes, COMPONENTS);
  }

  lemma NumberIs(s: seq<byte>, p: nat, n: nat)
    requires n < 0x8000_0000 && p + 4 <= |s| && s[p..p + 4] == Int(n)
    ensures NumberAt(s, p, n)
  {
    IntRoundTrip(n, s, p);
  }

  lemma CarriesMoved(mask: seq<bool>, sizes: seq<nat>, d: seq<byte>, s: seq<byte>, p: nat, comps: seq<seq<byte>>)
    requires Carries(mask, sizes, d, 0, comps) && p + |d| <= |s| && s[p..p + |d|] == d
    ensures Carries(mask, sizes, s, p, comps)
  {
    forall c: nat | c < COMPONENTS && mask[c] ensures CarriesAt(mask, sizes, s, p, comps, c) {
      assert CarriesAt(mask, sizes, d, 0, comps, c);
      var at := Offset(mask, sizes, c);
      var end, lo := at + sizes[c], p + at;
      SliceOfSlice(s, p, p + |d|, at, end, lo, lo + sizes[c]);
    }
  }

  lemma RecordWritten(t: Types, e: Entry, l: Local, s: seq<byte>, p: nat)
    requires Tells(t, e, l) && EntryOk(t, e) && p + HEADER + |e.data| <= |s|
    requires s[p..p + HEADER] == Header(e) && s[p + HEADER..p + HEADER + |e.data|] == e.data
    ensures RecordAt(t, s, p, l)
  {
    hide Gather, Carries, Fits, SizeOf, NumberAt, Int;
    var q := p + HEADER;
    var h, mid := s[p..q], p + 4;
    assert h[..4] == Int(e.kind) && h[4..] == Int(e.sequence);
    SliceOfSlice(s, p, q, 0, 4, p, mid);
    SliceOfSlice(s, p, q, 4, 8, mid, q);
    NumberIs(s, p, e.kind);
    NumberIs(s, mid, e.sequence);
    SizeIsOffset(t, l.kind);
    GatherCarries(t, t.masks[l.kind], l.comps);
    CarriesMoved(t.masks[l.kind], t.sizes, e.data, s, q, l.comps);
  }

  lemma RecordStays(t: Types, s: seq<byte>, s2: seq<byte>, p: nat, l: Local)
    requires RecordAt(t, s, p, l) && s <= s2
    ensures RecordAt(t, s2, p, l)
  {
    hide Fits;
    var mask, q := t.masks[l.kind], p + HEADER;
    forall c: nat | c < COMPONENTS && mask[c] ensures CarriesAt(mask, t.sizes, s2, q, l.comps, c) {
      assert CarriesAt(mask, t.sizes, s, q, l.comps, c);
      var at := q + Offset(mask, t.sizes, c);
      var end := at + t.sizes[c];
      assert s2[at..end] == s[at..end];
    }
  }

  lemma {:induction false} PositionSame(t: Types, locals: seq<Local>, a: seq<nat>, b: seq<nat>, k: nat)
    requires LocalsOk(t, locals) && k <= |locals| && forall i: nat | i < k :: i in a <==> i in b
    ensures Position(t, locals, a, k) == Position(t, locals, b, k)
  {
    hide LocalsOk;
    if k > 0 { PositionSame(t, locals, a, b, k - 1); }
  }

  lemma EntryKnown(t: Types, e: Entry)
    requires EntryOk(t, e)
    ensures e.kind < 0x8000_0000 && e.sequence < 0x8000_0000
    ensures TypesOk(t) && e.kind < ENTITY_TYPES && |e.data| == SizeOf(t, e.kind)
  {
  }

  lemma {:induction false} SnapshotSnoc(t: Types, es: seq<Entry>, e: Entry)
    requires EntriesOk(t, es) && EntryOk(t, e)
    ensures EntriesOk(t, es + [e]) && Snapshot(t, es + [e]) == Snapshot(t, es) + (Header(e) + e.data)
  {
    EntryKnown(t, e);
    if es != [] { EntryKnown(t, es[0]); }
    hide Header, EntryOk, SizeOf;
    if es == [] {
      assert [e][1..] == [];
    } else {
      var rest := es[1..];
      assert (es + [e])[1..] == rest + [e];
      SnapshotSnoc(t, rest, e);
      Regroup(Header(es[0]) + es[0].data, Snapshot(t, rest), Header(e) + e.data);
    }
  }

  lemma ChosenSkip(t: Types, locals: seq<Local>, taken: seq<nat>, n: nat)
    requires Chosen(t, locals, taken, n) && n < |locals| && locals[n].valid && !ChosenAt(t, locals, taken, n)
    ensures Chosen(t, locals, taken, n + 1)
    ensures Position(t, locals, taken, n + 1) == Position(t, locals, taken, n)
  {
    hide ChosenAt, LocalsOk, SizeOf;
    assert n !in taken;
    forall k: nat ensures k in taken <==> k < n + 1 && ChosenAt(t, locals, taken, k) {
      assert k in taken <==> k < n && ChosenAt(t, locals, taken, k);
    }
  }

  lemma ChosenTake(t: Types, locals: seq<Local>, taken: seq<nat>, n: nat)
    requires Chosen(t, locals, taken, n) && n < |locals| && locals[n].valid && ChosenAt(t, locals, taken, n)
    ensures Chosen(t, locals, taken + [n], n + 1) && n !in taken
    ensures forall k: nat | k <= n :: Position(t, locals, taken + [n], k) == Position(t, locals, taken, k)
    ensures Position(t, locals, taken + [n], n + 1) == Position(t, locals, taken, n) + HEADER + SizeOf(t, locals[n].kind)
  {
    var more := taken + [n];
    assert n !in taken by { hide ChosenAt; }
    forall k: nat | k <= n ensures Position(t, locals, more, k) == Position(t, locals, taken, k) {
      PositionSame(t, locals, taken, more, k);
    }
    forall k: nat ensures k in more <==> k < n + 1 && ChosenAt(t, locals, more, k) {
      if k < n { ChosenSame(t, locals, taken, more, k); }
      if k == n { ChosenSame(t, locals, taken, more, n); }
      hide ChosenAt;
      assert k in taken <==> k < n && ChosenAt(t, locals, taken, k);
    }
    assert n in more;
  }

  lemma ChosenSame(t: Types, locals: seq<Local>, a: seq<nat>, b: seq<nat>, k: nat)
    requires LocalsOk(t, locals) && k < |locals| && forall i: nat | i < k :: i in a <==> i in b
    ensures ChosenAt(t, locals, a, k) == ChosenAt(t, locals, b, k)
  {
    PositionSame(t, locals, a, b, k);
    hide Position, SizeOf;
  }

  /** Every entity that was taken has its record. */
  ghost predicate Records(t: Types, locals: seq<Local>, data: seq<byte>, taken: seq<nat>) {
    LocalsOk(t, locals) && forall k: nat | k in taken :: k < |locals| && RecordAt(t, data, Position(t, locals, taken, k), locals[k])
  }

  lemma RecordsTake(t: Types, locals: seq<Local>, taken: seq<nat>, n: nat, data: seq<byte>, data2: seq<byte>)
    requires Chosen(t, locals, taken, n) && Records(t, locals, data, taken) && n < |locals| && data <= data2
    requires forall k: nat | k <= n :: Position(t, locals, taken + [n], k) == Position(t, locals, taken, k)
    requires RecordAt(t, data2, Position(t, locals, taken, n), locals[n])
    ensures Records(t, locals, data2, taken + [n])
  {
    hide RecordAt, Position, ChosenAt, LocalsOk;
    var more := taken + [n];
    forall k: nat | k in more ensures k < |locals| && RecordAt(t, data2, Position(t, locals, more, k), locals[k]) {
      if k in taken { RecordStays(t, data, data2, Position(t, locals, taken, k), locals[k]); }
    }
  }

  /** The entries of a snapshot tell, in order, of the entities that were taken. */
  ghost predicate TellsAll(t: Types, locals: seq<Local>, taken: seq<nat>, es: seq<Entry>) {
    && |es| == |taken| && (forall j | 0 <= j < |es| :: taken[j] < |locals| && Tells(t, es[j], locals[taken[j]]))
    && (forall i, j | 0 <= i < j < |taken| :: taken[i] < taken[j])
  }

  lemma TellsMore(t: Types, locals: seq<Local>, taken: seq<nat>, n: nat, es: seq<Entry>, e: Entry)
    requires Chosen(t, locals, taken, n) && TellsAll(t, locals, taken, es) && n < |locals| && Tells(t, e, locals[n])
    ensures TellsAll(t, locals, taken + [n], es + [e])
  {
    hide Tells, ChosenAt;
    assert forall j | 0 <= j < |taken| :: taken[j] in taken;
  }

  /** The snapshot of the first n entities: its bytes, and the entries they are. */
  ghost predicate Shows(t: Types, locals: seq<Local>, n: nat, data: seq<byte>, taken: seq<nat>, es: seq<Entry>) {
    && Chosen(t, locals, taken, n) && |data| == Position(t, locals, taken, n) <= SNAPSHOT_BYTES
    && Records(t, locals, data, taken)
    && HoldsFrom(t, data, 0, es) && TellsAll(t, locals, taken, es)
  }

  lemma ShowsNone(t: Types, locals: seq<Local>)
    requires LocalsOk(t, locals)
    ensures Shows(t, locals, 0, [], [], [])
  {
  }

  lemma HoldsMore(t: Types, data: seq<byte>, es: seq<Entry>, e: Entry, data2: seq<byte>)
    requires HoldsFrom(t, data, 0, es) && EntryOk(t, e) && data2 == data + (Header(e) + e.data)
    ensures HoldsFrom(t, data2, 0, es + [e])
  {
    hide EntryOk, Header, Snapshot;
    SnapshotSnoc(t, es, e);
    assert data[0..] == data && data2[0..] == data2;
  }

  lemma RecordAdded(t: Types, e: Entry, l: Local, data: seq<byte>, data2: seq<byte>)
    requires EntryOk(t, e) && Tells(t, e, l) && data2 == data + (Header(e) + e.data)
    ensures RecordAt(t, data2, |data|, l) && data <= data2 && |data2| == |data| + HEADER + SizeOf(t, l.kind)
  {
    hide *;
    EntryKnown(t, e);
    EntrySequence(t, e, l);
    Appended(data, Header(e), e.data, data2);
    RecordWritten(t, e, l, data2, |data|);
  }

  lemma ShowsTake(t: Types, locals: seq<Local>, n: nat, data: seq<byte>, taken: seq<nat>, es: seq<Entry>, e: Entry, data2: seq<byte>)
    requires Shows(t, locals, n, data, taken, es) && n < |locals| && locals[n].valid && ChosenAt(t, locals, taken, n)
    requires EntryOk(t, e) && Tells(t, e, locals[n]) && data2 == data + (Header(e) + e.data)
    ensures Shows(t, locals, n + 1, data2, taken + [n], es + [e])
  {
    RoomLeft(t, locals, taken, n);
    RecordAdded(t, e, locals[n], data, data2);
    HoldsMore(t, data, es, e, data2);
    hide EntryOk, RecordAt, Tells, LocalOk, LocalsOk, SizeOf, Header, HoldsFrom, Chosen, ChosenAt, Records, TellsAll, Position;
    ChosenTake(t, locals, taken, n);
    RecordsTake(t, locals, taken, n, data, data2);
    TellsMore(t, locals, taken, n, es, e);
  }

  lemma RoomLeft(t: Types, locals: seq<Local>, taken: seq<nat>, n: nat)
    requires LocalsOk(t, locals) && n < |locals| && ChosenAt(t, locals, taken, n)
    ensures Position(t, locals, taken, n) + HEADER + SizeOf(t, locals[n].kind) < SNAPSHOT_BYTES
  {
  }

  lemma Appended(data: seq<byte>, h: seq<byte>, d: seq<byte>, data2: seq<byte>)
    requires data2 == data + (h + d)
    ensures data <= data2 && |data2| == |data| + |h| + |d|
    ensures data2[|data|..|data| + |h|] == h && data2[|data| + |h|..|data| + |h| + |d|] == d
  {
  }

  /** snapshot_entities: of the entities before the first invalid one it takes, in order, those that still
      fit, and writes their records one behind the other. */
  method SnapshotEntities(t: Types, locals: seq<Local>) returns (data: seq<byte>, ghost taken: seq<nat>, ghost n: nat, ghost es: seq<Entry>)
    requires LocalsOk(t, locals)
    ensures Shows(t, locals, n, data, taken, es) && (n < |locals| ==> !locals[n].valid)
  {
    hide Shows, LocalsOk, Chosen, ChosenAt, Header, Gather, SizeOf;
    data, taken, n, es := [], [], 0, [];
    ShowsNone(t, locals);
    var i := 0;
    while i < |locals| && locals[i].valid
      invariant 0 <= i <= |locals| && Shows(t, locals, i, data, taken, es)
    {
      LocalAt(t, locals, i);
      ShowsRoom(t, locals, i, data, taken, es);
      if SizeOf(t, locals[i].kind) + HEADER < SNAPSHOT_BYTES - |data| {
        ghost var was, e := data, Entry(locals[i].kind, locals[i].sequence, Gather(t.masks[locals[i].kind], locals[i].comps, 0));
        TellsOk(t, e, locals[i]);
        data := data + (Int(locals[i].kind) + Int(locals[i].sequence));
        data := CopyComponents(t.masks[locals[i].kind], locals[i].comps, data);
        HeaderIs(e);
        Regroup(was, Header(e), e.data);
        ShowsTake(t, locals, i, was, taken, es, e, data);
        taken, es := taken + [i], es + [e];
      } else {
        ShowsSkip(t, locals, i, data, taken, es);
      }
      i := i + 1;
    }
    n := i;
  }

  lemma ShowsRoom(t: Types, locals: seq<Local>, n: nat, data: seq<byte>, taken: seq<nat>, es: seq<Entry>)
    requires Shows(t, locals, n, data, taken, es) && n < |locals|
    ensures LocalsOk(t, locals) && |data| <= SNAPSHOT_BYTES && LocalOk(t, locals[n])
    ensures ChosenAt(t, locals, taken, n) <==> SizeOf(t, locals[n].kind) + HEADER < SNAPSHOT_BYTES - |data|
  {
    hide Records, TellsAll, HoldsFrom, SizeOf, Position;
  }

  lemma ShowsSkip(t: Types, locals: seq<Local>, n: nat, data: seq<byte>, taken: seq<nat>, es: seq<Entry>)
    requires Shows(t, locals, n, data, taken, es) && n < |locals| && locals[n].valid && !ChosenAt(t, locals, taken, n)
    ensures Shows(t, locals, n + 1, data, taken, es)
  {
    hide Chosen, ChosenAt, Records, TellsAll, HoldsFrom, SizeOf, Position;
    ChosenSkip(t, locals, taken, n);
  }

  lemma LocalAt(t: Types, locals: seq<Local>, i: nat)
    requires LocalsOk(t, locals) && i < |locals|
    ensures LocalOk(t, locals[i])
  {
  }

  lemma TellsOk(t: Types, e: Entry, l: Local)
    requires LocalOk(t, l) && e == Entry(l.kind, l.sequence, Gather(t.masks[l.kind], l.comps, 0))
    ensures Tells(t, e, l) && EntryOk(t, e)
  {
    GatherSize(t, t.masks[l.kind], l.comps, 0);
  }

  lemma HeaderIs(e: Entry)
    requires e.kind < 0x8000_0000 && e.sequence < 0x8000_0000
    ensures Header(e) == Int(e.kind) + Int(e.sequence)
  {
  }

  /** An entity in a packet: its header, 1 and its data, or 0. */
  lemma PacketBytes(t: Types, e: Entry)
    requires EntryOk(t, e)
    ensures var p := Delta(t, [e], []);
      && |p| == HEADER + 1 + |e.data| && NumberAt(p, 0, e.kind) && NumberAt(p, 4, e.sequence) && p[HEADER] == 1 && p[HEADER + 1..] == e.data
    ensures var p := Delta(t, [e], [e]);
      && |p| == HEADER + 1 && NumberAt(p, 0, e.kind) && NumberAt(p, 4, e.sequence) && p[HEADER] == 0
  {
    EntryKnown(t, e);
    var p, q := Delta(t, [e], []), Delta(t, [e], [e]);
    assert [e][1..] == [];
    hide EntryOk, Int, NumberAt;
    assert p == Header(e) + ([1] + e.data) && q == Header(e) + [0];
    HeaderNumbers(e, p);
    HeaderNumbers(e, q);
  }

  lemma HeaderNumbers(e: Entry, s: seq<byte>)
    requires e.kind < 0x8000_0000 && e.sequence < 0x8000_0000 && Header(e) <= s
    ensures NumberAt(s, 0, e.kind) && NumberAt(s, 4, e.sequence)
  {
    assert s[0..4] == Int(e.kind) && s[4..8] == Int(e.sequence);
    hide Int, NumberAt, Header;
    NumberIs(s, 0, e.kind);
    NumberIs(s, 4, e.sequence);
  }

  // --------------------------------------------------------- at the receiver

  /** A live entity of the receiver with the sequence number, the type and the replicated components of l. */
  ghost predicate CopyOf(t: Types, slot: Slot, l: Local) {
    && slot.life == Live && slot.remote == l.sequence && slot.kind == l.kind && LocalOk(t, l) && Fits(t, slot.comps)
    && forall c | 0 <= c < COMPONENTS && t.masks[l.kind][c] :: slot.comps[c] == l.comps[c]
  }

  ghost predicate Copied(t: Types, slots: seq<Slot>, l: Local) {
    exists i :: 0 <= i < |slots| && CopyOf(t, slots[i], l)
  }

  ghost predicate SequenceAmong(sequence: int, locals: seq<Local>, taken: seq<nat>) {
    exists k: nat :: k in taken && k < |locals| && locals[k].sequence == sequence
  }

  /** The receiver's live entities are copies of the taken ones, and there are no others. */
  ghost predicate Shown(t: Types, slots: seq<Slot>, locals: seq<Local>, taken: seq<nat>) {
    && (forall k: nat | k in taken :: k < |locals| && Copied(t, slots, locals[k]))
    && (forall i {:trigger slots[i]} | 0 <= i < |slots| && slots[i].life == Live :: SequenceAmong(slots[i].remote, locals, taken))
  }

  lemma EntryCopied(t: Types, slots: seq<Slot>, e: Entry, l: Local)
    requires Tells(t, e, l) && Mirrors(t, slots, e) && slots[Lookup(slots, e.sequence, 0)].life == Live
    ensures Copied(t, slots, l)
  {
    hide Gather, Fits;
    var slot := slots[Lookup(slots, e.sequence, 0)];
    SameComponents(t, t.masks[l.kind], slot.comps, l.comps);
    assert CopyOf(t, slot, l);
  }

  /** Reproducing the snapshot's entries is mirroring the entities themselves. */
  lemma EntriesShown(t: Types, slots: seq<Slot>, locals: seq<Local>, taken: seq<nat>, es: seq<Entry>)
    requires TellsAll(t, locals, taken, es) && Reproduces(t, slots, es)
    ensures Shown(t, slots, locals, taken)
  {
    hide Tells, Mirrors, Copied, Lookup;
    forall k: nat | k in taken ensures k < |locals| && Copied(t, slots, locals[k]) {
      var j :| 0 <= j < |taken| && taken[j] == k;
      EntryCopied(t, slots, es[j], locals[k]);
    }
    forall i {:trigger slots[i]} | 0 <= i < |slots| && slots[i].life == Live ensures SequenceAmong(slots[i].remote, locals, taken) {
      var j :| 0 <= j < |es| && es[j].sequence == slots[i].remote;
      EntrySequence(t, es[j], locals[taken[j]]);
      assert taken[j] in taken;
    }
  }

  lemma EntrySequence(t: Types, e: Entry, l: Local)
    requires Tells(t, e, l)
    ensures e.sequence == l.sequence && e.kind == l.kind
  {
  }

  // -------------------------------------------------------------------- room

  ghost function Ids(es: seq<Entry>): set<nat> {
    set j | 0 <= j < |es| :: es[j].sequence
  }

  ghost function LocalIds(locals: seq<Local>): set<nat> {
    set i | 0 <= i < |locals| && locals[i].valid :: locals[i].sequence
  }

  lemma {:induction false} SmallerSet(a: set<nat>, b: set<nat>)
    requires a <= b
    ensures |a| <= |b|
    decreases a
  {
    if a != {} {
      var x :| x in a;
      SmallerSet(a - {x}, b - {x});
    }
  }

  lemma {:induction false} IdsSize(es: seq<Entry>)
    requires Distinct(es)
    ensures |Ids(es)| == |es|
  {
    if es != [] {
      IdsStep(es);
      IdsSize(es[1..]);
    }
  }

  lemma IdsStep(es: seq<Entry>)
    requires es != [] && Distinct(es)
    ensures Ids(es) == {es[0].sequence} + Ids(es[1..]) && es[0].sequence !in Ids(es[1..]) && Distinct(es[1..])
  {
    var rest := es[1..];
    forall x | x in Ids(es) ensures x == es[0].sequence || x in Ids(rest) {
      var j :| 0 <= j < |es| && es[j].sequence == x;
      if j > 0 { assert rest[j - 1].sequence == x; }
    }
    forall x | x in Ids(rest) ensures x in Ids(es) && x != es[0].sequence {
      var j :| 0 <= j < |rest| && rest[j].sequence == x;
      assert es[j + 1].sequence == x;
    }
  }

  lemma {:induction false} MissingIds(held: seq<Entry>, es: seq<Entry>)
    requires Distinct(es)
    ensures |Ids(held) + Ids(es)| == |Ids(held)| + Missing(held, es)
  {
    if es == [] {
      assert Ids(held) + Ids(es) == Ids(held);
    } else {
      var x, rest := es[0].sequence, es[1..];
      IdsStep(es);
      MissingIds(held, rest);
      assert x in Ids(held) <==> IndexOf(held, x) < |held|;
      var u := Ids(held) + Ids(rest);
      assert Ids(held) + Ids(es) == u + {x};
      if x in Ids(held) {
        assert u + {x} == u;
      }
    }
  }

  // -------------------------------------------------------------------- a run

  /** A sender's entities: references are unique, types are fixed, and the receiver can create them. */
  ghost predicate WorldOk(t: Types, locals: seq<Local>, initial: int -> seq<seq<byte>>, kindOf: int -> nat) {
    && LocalsOk(t, locals)
    && (forall i, j | 0 <= i < j < |locals| && locals[i].valid && locals[j].valid :: locals[i].sequence != locals[j].sequence)
    && (forall i | 0 <= i < |locals| && locals[i].valid :: locals[i].kind == kindOf(locals[i].sequence) && Fits(t, initial(locals[i].sequence)))
  }

  lemma EntriesOfWorld(t: Types, locals: seq<Local>, n: nat, data: seq<byte>, taken: seq<nat>, es: seq<Entry>, initial: int -> seq<seq<byte>>, kindOf: int -> nat)
    requires WorldOk(t, locals, initial, kindOf) && Shows(t, locals, n, data, taken, es)
    ensures HoldsFrom(t, data, 0, es) && Distinct(es) && EntriesTyped(es, kindOf) && Ids(es) <= LocalIds(locals)
    ensures forall j | 0 <= j < |es| :: Fits(t, initial(es[j].sequence))
  {
    hide Tells, HoldsFrom, Records, Position, LocalsOk, ChosenAt, Fits;
    forall j | 0 <= j < |es| ensures taken[j] < n && es[j].sequence == locals[taken[j]].sequence && es[j].kind == locals[taken[j]].kind {
      assert taken[j] in taken;
      EntrySequence(t, es[j], locals[taken[j]]);
    }
  }

  function Previous(worlds: seq<seq<Local>>, i: nat): seq<Local>
    requires i <= |worlds|
  {
    if i == 0 then [] else worlds[i - 1]
  }

  /** At any time there is room at the receiver for the entities of a frame beside those of the one before. */
  ghost predicate WorldsOk(t: Types, worlds: seq<seq<Local>>, initial: int -> seq<seq<byte>>, kindOf: int -> nat) {
    forall i | 0 <= i < |worlds| ::
      WorldOk(t, worlds[i], initial, kindOf) && |LocalIds(Previous(worlds, i)) + LocalIds(worlds[i])| <= MAX_ENTITIES
  }

  /** The snapshots so far: each can follow the one before. */
  ghost predicate Ready(t: Types, worlds: seq<seq<Local>>, i: nat, snapshots: seq<seq<byte>>, ess: seq<seq<Entry>>, initial: int -> seq<seq<byte>>, kindOf: int -> nat) {
    && i <= |worlds| && |ess| == i && SessionOk(t, snapshots, ess, initial, kindOf)
    && Distinct(Before(ess, i)) && Ids(Before(ess, i)) <= LocalIds(Previous(worlds, i))
  }

  lemma SessionMore(t: Types, snapshots: seq<seq<byte>>, ess: seq<seq<Entry>>, initial: int -> seq<seq<byte>>, kindOf: int -> nat, data: seq<byte>, es: seq<Entry>)
    requires SessionOk(t, snapshots, ess, initial, kindOf) && RoundOk(t, data, es, Before(ess, |ess|), initial, kindOf)
    ensures SessionOk(t, snapshots + [data], ess + [es], initial, kindOf) && Before(ess + [es], |ess| + 1) == es
  {
    hide RoundOk, Before;
    var d2, e2 := snapshots + [data], ess + [es];
    BeforeMore(ess, es, |ess|);
    forall j: nat | j < |e2| ensures RoundOk(t, d2[j], e2[j], Before(e2, j), initial, kindOf) {
      BeforeMore(ess, es, j);
      if j < |ess| {
        assert RoundOk(t, snapshots[j], ess[j], Before(ess, j), initial, kindOf);
        assert d2[j] == snapshots[j] && e2[j] == ess[j];
      } else {
        assert d2[j] == data && e2[j] == es;
      }
    }
  }

  lemma BeforeMore(ess: seq<seq<Entry>>, es: seq<Entry>, j: nat)
    requires j <= |ess|
    ensures Before(ess + [es], j) == Before(ess, j) && Before(ess + [es], |ess| + 1) == es
  {
  }

  lemma RoomFor(held: seq<Entry>, es: seq<Entry>, before: seq<Local>, locals: seq<Local>)
    requires Distinct(held) && Distinct(es) && Ids(held) <= LocalIds(before) && Ids(es) <= LocalIds(locals)
    requires |LocalIds(before) + LocalIds(locals)| <= MAX_ENTITIES
    ensures |held| + Missing(held, es) <= MAX_ENTITIES
  {
    MissingIds(held, es);
    IdsSize(held);
    SmallerSet(Ids(held) + Ids(es), LocalIds(before) + LocalIds(locals));
  }

  lemma WorldAt(t: Types, worlds: seq<seq<Local>>, i: nat, initial: int -> seq<seq<byte>>, kindOf: int -> nat)
    requires WorldsOk(t, worlds, initial, kindOf) && i < |worlds|
    ensures LocalsOk(t, worlds[i]) && WorldOk(t, worlds[i], initial, kindOf)
    ensures |LocalIds(Previous(worlds, i)) + LocalIds(worlds[i])| <= MAX_ENTITIES
  {
    assert WorldOk(t, worlds[i], initial, kindOf);
  }

  lemma RoundIsOk(t: Types, data: seq<byte>, es: seq<Entry>, held: seq<Entry>, initial: int -> seq<seq<byte>>, kindOf: int -> nat)
    requires HoldsFrom(t, data, 0, es) && Distinct(es) && EntriesTyped(es, kindOf) && |held| + Missing(held, es) <= MAX_ENTITIES
    requires forall j | 0 <= j < |es| :: Fits(t, initial(es[j].sequence))
    ensures RoundOk(t, data, es, held, initial, kindOf)
  {
  }

  lemma ReadyNext(t: Types, worlds: seq<seq<Local>>, i: nat, snapshots: seq<seq<byte>>, ess: seq<seq<Entry>>, initial: int -> seq<seq<byte>>, kindOf: int -> nat,
                  n: nat, data: seq<byte>, taken: seq<nat>, es: seq<Entry>)
    requires Ready(t, worlds, i, snapshots, ess, initial, kindOf) && WorldsOk(t, worlds, initial, kindOf) && i < |worlds|
    requires Shows(t, worlds[i], n, data, taken, es)
    ensures Ready(t, worlds, i + 1, snapshots + [data], ess + [es], initial, kindOf)
  {
    hide Shows, Fits, WorldsOk, WorldOk, LocalsOk, Distinct, EntriesTyped, HoldsFrom, Ids, LocalIds, Missing, SessionOk, RoundOk;
    WorldAt(t, worlds, i, initial, kindOf);
    EntriesOfWorld(t, worlds[i], n, data, taken, es, initial, kindOf);
    var held := Before(ess, i);
    RoomFor(held, es, Previous(worlds, i), worlds[i]);
    RoundIsOk(t, data, es, held, initial, kindOf);
    SessionMore(t, snapshots, ess, initial, kindOf, data, es);
  }

  lemma NothingReady(t: Types, worlds: seq<seq<Local>>, initial: int -> seq<seq<byte>>, kindOf: int -> nat)
    ensures Ready(t, worlds, 0, [], [], initial, kindOf)
  {
  }

  /** The last of the snapshots, if any, tells of the entities that were taken from the last world. */
  ghost predicate TellsLast(t: Types, worlds: seq<seq<Local>>, i: nat, ess: seq<seq<Entry>>, taken: seq<nat>, n: nat) {
    0 < i <= |worlds| && i <= |ess| ==>
      var locals := worlds[i - 1]; TellsAll(t, locals, taken, ess[i - 1]) && Chosen(t, locals, taken, n) && (n < |locals| ==> !locals[n].valid)
  }

  /** One snapshot a frame. */
  method TakeSnapshots(t: Types, worlds: seq<seq<Local>>, ghost initial: int -> seq<seq<byte>>, ghost kindOf: int -> nat)
    returns (snapshots: seq<seq<byte>>, ghost ess: seq<seq<Entry>>, ghost taken: seq<nat>, ghost n: nat)
    requires WorldsOk(t, worlds, initial, kindOf)
    ensures Ready(t, worlds, |worlds|, snapshots, ess, initial, kindOf) && |ess| == |snapshots| == |worlds|
    ensures TellsLast(t, worlds, |worlds|, ess, taken, n)
  {
    hide Shows, Ready, WorldOk, WorldsOk, LocalsOk, TellsAll, Chosen;
    snapshots, ess, taken, n := [], [], [], 0;
    NothingReady(t, worlds, initial, kindOf);
    for i := 0 to |worlds|
      invariant Ready(t, worlds, i, snapshots, ess, initial, kindOf) && |ess| == |snapshots| == i && TellsLast(t, worlds, i, ess, taken, n)
    {
      WorldAt(t, worlds, i, initial, kindOf);
      var data;
      ghost var es;
      data, taken, n, es := SnapshotEntities(t, worlds[i]);
      ReadyNext(t, worlds, i, snapshots, ess, initial, kindOf, n, data, taken, es);
      ShowsTold(t, worlds[i], n, data, taken, es);
      snapshots, ess := snapshots + [data], ess + [es];
    }
  }

  /** From the sender's components to the receiver's, over any number of frames from the start of a
      connection: in each the sender takes a snapshot of its entities, and sends it against the one that
      was applied last or, where that is not usable, against none. Afterwards the receiver's live entities
      are copies of those that the last snapshot took, component by component. */
  method ShowWorlds(t: Types, c: Connection, worlds: seq<seq<Local>>, usable: seq<bool>, start: int, initial: int -> seq<seq<byte>>, ghost kindOf: int -> nat)
    returns (ghost taken: seq<nat>, ghost n: nat)
    requires TypesOk(t) && c.entities.Length == MAX_ENTITIES && forall k | 0 <= k < MAX_ENTITIES :: c.entities[k].life == Gone
    requires 0 < |worlds| == |usable| && WorldsOk(t, worlds, initial, kindOf)
    modifies c.entities
    ensures var last := worlds[|worlds| - 1]; Chosen(t, last, taken, n) && (n < |last| ==> !last[n].valid)
    ensures Shown(t, c.entities[..], worlds[|worlds| - 1], taken)
  {
    hide Ready, WorldOk, WorldsOk, TypesOk, TellsAll, Chosen, Shown, SessionOk, Settled, Before, Reproduces;
    var snapshots;
    ghost var ess;
    snapshots, ess, taken, n := TakeSnapshots(t, worlds, initial, kindOf);
    ReadySession(t, worlds, |worlds|, snapshots, ess, initial, kindOf);
    Session(t, c, snapshots, usable, start, initial, ess, kindOf);
    SettledShows(t, c.entities[..], ess, start + |ess|, kindOf);
    EntriesShown(t, c.entities[..], worlds[|worlds| - 1], taken, ess[|worlds| - 1]);
  }

  lemma ShowsTold(t: Types, locals: seq<Local>, n: nat, data: seq<byte>, taken: seq<nat>, es: seq<Entry>)
    requires Shows(t, locals, n, data, taken, es)
    ensures TellsAll(t, locals, taken, es) && Chosen(t, locals, taken, n)
  {
  }

  lemma ReadySession(t: Types, worlds: seq<seq<Local>>, i: nat, snapshots: seq<seq<byte>>, ess: seq<seq<Entry>>, initial: int -> seq<seq<byte>>, kindOf: int -> nat)
    requires Ready(t, worlds, i, snapshots, ess, initial, kindOf)
    ensures SessionOk(t, snapshots, ess, initial, kindOf)
  {
  }

  lemma SettledShows(t: Types, slots: seq<Slot>, ess: seq<seq<Entry>>, now: int, kindOf: int -> nat)
    requires ess != [] && Settled(t, slots, Before(ess, |ess|), now, kindOf)
    ensures Reproduces(t, slots, ess[|ess| - 1])
  {
  }
}
