/** Entity lifecycle of the entity component system: slots, sequence numbers, weak references and
    queries by component mask. */
module Ecs {

  const MAX_ENTITIES := 512

  datatype EntityState = Unused | PendingAdd | Active | PendingRemove

  datatype Ref = Ref(entity: int, sequence: int)

  datatype Query = Query(mask: bv64, entity: int)

  /** What the component system knows about its slots. */
  datatype World = World(globalSequence: int, sequences: seq<int>, states: seq<EntityState>, masks: seq<bv64>)

  ghost predicate Shaped(w: World) {
    |w.sequences| == MAX_ENTITIES && |w.states| == MAX_ENTITIES && |w.masks| == MAX_ENTITIES
  }

  /** Sequence numbers come from the global one, and used slots have one. */
  ghost predicate Sound(w: World) {
    && Shaped(w) && w.globalSequence >= 1
    && forall i | 0 <= i < MAX_ENTITIES :: 0 <= w.sequences[i] < w.globalSequence
  }

  function Advance(s: EntityState): EntityState {
    match s
    case PendingAdd => Active
    case PendingRemove => Unused
    case _ => s
  }

  function Updated(w: World): World {
    w.(states := seq(|w.states|, i requires 0 <= i < |w.states| => Advance(w.states[i])))
  }

  /** The first unused slot at or after i, or -1. */
  function FirstUnused(states: seq<EntityState>, i: nat): (r: int)
    requires i <= |states|
    ensures r == -1 || (i <= r < |states| && states[r] == Unused)
    ensures forall k | i <= k < (if r == -1 then |states| else r) :: states[k] != Unused
    decreases |states| - i
  {
    if i == |states| then -1 else if states[i] == Unused then i else FirstUnused(states, i + 1)
  }

  function Added(w: World, mask: bv64): (World, Ref)
    requires |w.sequences| == |w.states| == |w.masks|
  {
    var i := FirstUnused(w.states, 0);
    if i == -1 then (w, Ref(-1, -1)) else
      (World(w.globalSequence + 1, w.sequences[i := w.globalSequence], w.states[i := PendingAdd], w.masks[i := mask]),
       Ref(i, w.globalSequence))
  }

  /** ecs_is_entity_ref_valid; the entity is -1 or a slot number. */
  predicate IsValid(w: World, ref: Ref, allowPendingAdd: bool)
    requires ref.entity < |w.sequences| == |w.states|
  {
    && ref.entity >= 0 && w.sequences[ref.entity] == ref.sequence
    && w.states[ref.entity] != Unused && (w.states[ref.entity] == PendingAdd ==> allowPendingAdd)
  }

  function Removed(w: World, ref: Ref, allowPendingAdd: bool): World
    requires ref.entity < |w.sequences| == |w.states|
  {
    if IsValid(w, ref, allowPendingAdd) then w.(states := w.states[ref.entity := PendingRemove]) else w
  }

  predicate Contains(own: bv64, mask: bv64) {
    own & mask == mask
  }

  /** A live slot that has all the components of the mask. */
  predicate Matched(w: World, mask: bv64, i: int)
    requires 0 <= i < |w.states| == |w.masks|
  {
    Contains(w.masks[i], mask) && (w.states[i] == Active || w.states[i] == PendingRemove)
  }

  // --------------------------------------------------------------- the calls

  class System {
    const sequences: array<int>
    const states: array<EntityState>
    const masks: array<bv64>
    var globalSequence: int

    ghost predicate Valid()
      reads this, sequences, states, masks
    {
      && sequences.Length == MAX_ENTITIES && states.Length == MAX_ENTITIES && masks.Length == MAX_ENTITIES
      && sequences as object != states as object && states as object != masks as object && sequences as object != masks as object
    }

    ghost function View(): World
      reads this, sequences, states, masks
    {
      World(globalSequence, sequences[..], states[..], masks[..])
    }

    /** ecs_create */
    constructor ()
      ensures Valid() && Sound(View()) && fresh(sequences) && fresh(states) && fresh(masks)
      ensures forall i | 0 <= i < MAX_ENTITIES :: View().states[i] == Unused
    {
      sequences := new int[MAX_ENTITIES](_ => 0);
      states := new EntityState[MAX_ENTITIES](_ => Unused);
      masks := new bv64[MAX_ENTITIES](_ => 0);
      globalSequence := 1;
    }

    /** ecs_update */
    method Update()
      requires Valid()
      modifies states
      ensures Valid() && View() == Updated(old(View()))
    {
      for i := 0 to MAX_ENTITIES
        invariant forall k | 0 <= k < i :: states[k] == Advance(old(states[k]))
        invariant forall k | i <= k < MAX_ENTITIES :: states[k] == old(states[k])
      {
        if states[i] == PendingAdd {
          states[i] := Active;
        } else if states[i] == PendingRemove {
          states[i] := Unused;
        }
      }
      assert states[..] == Updated(old(View())).states;
    }

    /** ecs_entity_add */
    method Add(mask: bv64) returns (ref: Ref)
      requires Valid()
      modifies this`globalSequence, sequences, states, masks
      ensures Valid() && (View(), ref) == Added(old(View()), mask)
    {
      for i := 0 to MAX_ENTITIES
        invariant FirstUnused(states[..], 0) == FirstUnused(states[..], i)
      {
        assert states[..][i] == states[i];
        if states[i] == Unused {
          states[i] := PendingAdd;
          sequences[i] := globalSequence;
          globalSequence := globalSequence + 1;
          masks[i] := mask;
          assert states[..] == old(states[..])[i := PendingAdd];
          assert sequences[..] == old(sequences[..])[i := old(globalSequence)];
          assert masks[..] == old(masks[..])[i := mask];
          return Ref(i, sequences[i]);
        }
      }
      ref := Ref(-1, -1);
    }

    /** ecs_entity_remove */
    method Remove(ref: Ref, allowPendingAdd: bool)
      requires Valid() && ref.entity < MAX_ENTITIES
      modifies states
      ensures Valid() && View() == Removed(old(View()), ref, allowPendingAdd)
    {
      if ref.entity >= 0 && sequences[ref.entity] == ref.sequence
         && states[ref.entity] != Unused && (states[ref.entity] == PendingAdd ==> allowPendingAdd)
      {
        states[ref.entity] := PendingRemove;
        assert states[..] == old(states[..])[ref.entity := PendingRemove];
      }
    }

    /** ecs_is_entity_ref_valid */
    method IsEntityRefValid(ref: Ref, allowPendingAdd: bool) returns (valid: bool)
      requires Valid() && ref.entity < MAX_ENTITIES
      ensures valid == IsValid(View(), ref, allowPendingAdd)
    {
      valid := ref.entity >= 0 && sequences[ref.entity] == ref.sequence
        && (states[ref.entity] != PendingAdd || allowPendingAdd) && states[ref.entity] != Unused;
    }

    /** The test of ecs_query_next. */
    predicate Matches(mask: bv64, i: int)
      requires Valid() && 0 <= i < MAX_ENTITIES
      reads this, sequences, states, masks
      ensures Matches(mask, i) == Matched(View(), mask, i)
    {
      Contains(masks[i], mask) && (states[i] == Active || states[i] == PendingRemove)
    }

    /** ecs_query_next: the next matching slot, or -1. */
    method QueryNext(q: Query) returns (next: Query)
      requires Valid() && -1 <= q.entity < MAX_ENTITIES
      ensures next.mask == q.mask && (next.entity == -1 || (q.entity < next.entity < MAX_ENTITIES && Matches(q.mask, next.entity)))
      ensures forall i | q.entity < i < (if next.entity == -1 then MAX_ENTITIES else next.entity) :: !Matches(q.mask, i)
    {
      for i := q.entity + 1 to MAX_ENTITIES
        invariant forall k | q.entity < k < i :: !Matches(q.mask, k)
      {
        if Matches(q.mask, i) {
          return Query(q.mask, i);
        }
      }
      next := Query(q.mask, -1);
    }

    /** ecs_query_create */
    method QueryCreate(mask: bv64) returns (q: Query)
      requires Valid()
      ensures q.mask == mask && (q.entity == -1 || (0 <= q.entity < MAX_ENTITIES && Matches(mask, q.entity)))
      ensures forall i | 0 <= i < (if q.entity == -1 then MAX_ENTITIES else q.entity) :: !Matches(mask, i)
    {
      q := QueryNext(Query(mask, -1));
    }

    /** The loop of every user of a query, over an unchanged system: it visits exactly the matching
        live slots, once each, in order. */
    method QueryLoop(mask: bv64) returns (visited: seq<int>)
      requires Valid()
      ensures forall i :: i in visited <==> 0 <= i < MAX_ENTITIES && Matched(View(), mask, i)
      ensures forall j, k | 0 <= j < k < |visited| :: visited[j] < visited[k]
    {
      hide Matches;
      visited := [];
      var q := QueryCreate(mask);
      while q.entity >= 0
        invariant q.mask == mask && -1 <= q.entity < MAX_ENTITIES
        invariant q.entity >= 0 ==> Matches(mask, q.entity)
        invariant forall i :: i in visited <==> 0 <= i < (if q.entity < 0 then MAX_ENTITIES else q.entity) && Matches(mask, i)
        invariant forall j | 0 <= j < |visited| :: visited[j] < (if q.entity < 0 then MAX_ENTITIES else q.entity)
        invariant forall j, k | 0 <= j < k < |visited| :: visited[j] < visited[k]
        decreases if q.entity < 0 then 0 else MAX_ENTITIES - q.entity
      {
        visited := visited + [q.entity];
        q := QueryNext(q);
      }
    }
  }

  // ---------------------------------------------------------------- the runs

  datatype Call = CallAdd(mask: bv64) | CallRemove(ref: Ref, allowPendingAdd: bool) | CallUpdate

  ghost predicate Callable(c: Call) {
    c.CallRemove? ==> c.ref.entity < MAX_ENTITIES
  }

  function After(w: World, c: Call): World
    requires Shaped(w) && Callable(c)
  {
    match c
    case CallAdd(mask) => Added(w, mask).0
    case CallRemove(ref, allow) => Removed(w, ref, allow)
    case CallUpdate => Updated(w)
  }

  ghost predicate Run(w: World, calls: seq<Call>, w': World)
    decreases |calls|
  {
    Shaped(w) && if calls == [] then w' == w else Callable(calls[0]) && Run(After(w, calls[0]), calls[1..], w')
  }

  /** The reference's slot is free again or was given to a later entity. */
  ghost predicate Dead(w: World, ref: Ref)
    requires Shaped(w) && 0 <= ref.entity < MAX_ENTITIES
  {
    && ref.sequence < w.globalSequence
    && (w.sequences[ref.entity] > ref.sequence || (w.sequences[ref.entity] == ref.sequence && w.states[ref.entity] == Unused))
  }

  lemma CallKeeps(w: World, c: Call, ref: Ref)
    requires Sound(w) && Callable(c) && 0 <= ref.entity < MAX_ENTITIES
    ensures Sound(After(w, c))
    ensures Dead(w, ref) ==> Dead(After(w, c), ref)
    ensures IsValid(w, ref, true) ==> IsValid(After(w, c), ref, true) || Dead(After(w, c), ref)
    ensures IsValid(w, ref, false) ==> IsValid(After(w, c), ref, false) || Dead(After(w, c), ref)
  {
  }

  /** A reference that was valid once is valid or dead ever after. */
  lemma {:induction false} ValidOrDead(w: World, calls: seq<Call>, w': World, ref: Ref, allowPendingAdd: bool)
    requires Sound(w) && Run(w, calls, w') && 0 <= ref.entity < MAX_ENTITIES
    ensures Sound(w')
    ensures Dead(w, ref) ==> Dead(w', ref)
    ensures IsValid(w, ref, allowPendingAdd) ==> IsValid(w', ref, allowPendingAdd) || Dead(w', ref)
    decreases |calls|
  {
    if calls != [] {
      CallKeeps(w, calls[0], ref);
      ValidOrDead(After(w, calls[0]), calls[1..], w', ref, allowPendingAdd);
    }
  }

  /** A reference that became invalid never becomes valid again. */
  lemma NeverValidAgain(w: World, calls: seq<Call>, w1: World, more: seq<Call>, w2: World, ref: Ref, allowPendingAdd: bool)
    requires Sound(w) && Run(w, calls, w1) && Run(w1, more, w2) && 0 <= ref.entity < MAX_ENTITIES
    requires IsValid(w, ref, allowPendingAdd) && !IsValid(w1, ref, allowPendingAdd)
    ensures Sound(w2) && !IsValid(w2, ref, allowPendingAdd)
  {
    ValidOrDead(w, calls, w1, ref, allowPendingAdd);
    ValidOrDead(w1, more, w2, ref, allowPendingAdd);
  }

  /** ecs_entity_add never hands out the slot of a valid reference, and never the same reference
      twice: while both are valid, two references it returned have different slots. */
  lemma AddedApart(w: World, mask: bv64, calls: seq<Call>, w1: World, mask1: bv64, more: seq<Call>, w2: World)
    requires Sound(w) && Run(Added(w, mask).0, calls, w1) && Shaped(w1) && Run(Added(w1, mask1).0, more, w2)
    requires Added(w, mask).1.entity >= 0 && Added(w1, mask1).1.entity >= 0
    ensures var first, second := Added(w, mask).1, Added(w1, mask1).1;
      && first.sequence < second.sequence
      && Shaped(w2) && first.entity < MAX_ENTITIES && second.entity < MAX_ENTITIES
      && (IsValid(w2, first, true) ==> first.entity != second.entity)
  {
    var first, second := Added(w, mask).1, Added(w1, mask1).1;
    var wa, wb := Added(w, mask).0, Added(w1, mask1).0;
    CallKeeps(w, CallAdd(mask), first);
    assert IsValid(wa, first, true);
    ValidOrDead(wa, calls, w1, first, true);
    CallKeeps(w1, CallAdd(mask1), first);
    ValidOrDead(wb, more, w2, first, true);
    SequencesGrow(wa, calls, w1);
    if first.entity == second.entity {
      assert Dead(wb, first);
    }
  }

  lemma {:induction false} SequencesGrow(w: World, calls: seq<Call>, w': World)
    requires Sound(w) && Run(w, calls, w')
    ensures w.globalSequence <= w'.globalSequence
    decreases |calls|
  {
    if calls != [] {
      CallKeeps(w, calls[0], Ref(0, 0));
      SequencesGrow(After(w, calls[0]), calls[1..], w');
    }
  }

  // ------------------------------------------------------ from addition to end

  /** ecs_entity_add fails exactly when every slot is used. Otherwise it takes an unused slot, and no
      reference but the new one becomes or ceases to be valid. */
  lemma AddTakes(w: World, mask: bv64)
    requires Sound(w)
    ensures var (w1, ref) := Added(w, mask);
      && Shaped(w1) && ref.entity < MAX_ENTITIES
      && (ref.entity < 0 <==> Unused !in w.states) && (ref.entity < 0 ==> w1 == w)
      && (ref.entity >= 0 ==>
        && w.states[ref.entity] == Unused && Unused !in w.states[..ref.entity]
        && IsValid(w1, ref, true) && !IsValid(w1, ref, false) && forall m :: !Matched(w1, m, ref.entity))
    ensures forall r: Ref, allow | r.entity < MAX_ENTITIES && r != Added(w, mask).1 ::
      IsValid(Added(w, mask).0, r, allow) == IsValid(w, r, allow)
  {
    var i := FirstUnused(w.states, 0);
    if i == -1 {
      assert forall k | 0 <= k < MAX_ENTITIES :: w.states[k] != Unused;
    }
  }

  /** A removal, of a valid reference or not, makes no reference invalid yet. */
  lemma RemoveWaits(w: World, ref: Ref, allow: bool, r: Ref)
    requires Sound(w) && ref.entity < MAX_ENTITIES && r.entity < MAX_ENTITIES
    ensures IsValid(Removed(w, ref, allow), r, true) == IsValid(w, r, true)
    ensures r != ref ==> IsValid(Removed(w, ref, allow), r, false) == IsValid(w, r, false)
  {
  }

  /** After an update a reference is valid exactly if it was, counting the pending additions, and its
      entity was not removed since; then it is no longer pending. */
  lemma UpdateSettles(w: World, r: Ref, allow: bool)
    requires Sound(w) && r.entity < MAX_ENTITIES
    ensures IsValid(Updated(w), r, allow) <==> IsValid(w, r, true) && w.states[r.entity] != PendingRemove
  {
  }

  /** Adding and then updating brings the entity to life: its reference is valid, and a query visits
      its slot exactly for the masks that its own mask contains. */
  lemma AddThenUpdate(w: World, mask: bv64)
    requires Sound(w) && Added(w, mask).1.entity >= 0
    ensures var (w1, ref) := Added(w, mask); var w2 := Updated(w1);
      && Shaped(w2) && ref.entity < MAX_ENTITIES && IsValid(w2, ref, false)
      && forall m :: Matched(w2, m, ref.entity) <==> Contains(mask, m)
  {
    hide Contains;
  }

  lemma ContainsIs(own: bv64, mask: bv64)
    ensures Contains(own, mask) <==> own & mask == mask
  {
  }

  /** Removing and then updating ends it: its reference is dead, its slot is unused, and the next
      addition finds a slot, this one at the latest. */
  lemma RemoveThenUpdate(w: World, ref: Ref, allow: bool, mask: bv64)
    requires Sound(w) && ref.entity < MAX_ENTITIES && IsValid(w, ref, allow)
    ensures var w2 := Updated(Removed(w, ref, allow));
      && Sound(w2) && !IsValid(w2, ref, true) && Dead(w2, ref) && w2.states[ref.entity] == Unused
      && 0 <= Added(w2, mask).1.entity <= ref.entity
  {
    var w2 := Updated(Removed(w, ref, allow));
    CallKeeps(w, CallRemove(ref, allow), ref);
    assert w2.states[ref.entity] == Unused;
  }

  /** The i-th call removes ref, whose entity is active before the calls or still pending. */
  ghost predicate RemovesAt(calls: seq<Call>, ref: Ref, active: bool, i: nat) {
    && i < |calls| && calls[i].CallRemove? && calls[i].ref == ref
    && (active || calls[i].allowPendingAdd || CallUpdate in calls[..i])
  }

  ghost predicate Removes(calls: seq<Call>, ref: Ref, active: bool) {
    exists i: nat :: RemovesAt(calls, ref, active, i)
  }

  /** An update comes behind a call that removes ref. */
  ghost predicate Ends(calls: seq<Call>, ref: Ref, active: bool) {
    exists i: nat :: i < |calls| && RemovesAt(calls, ref, active, i) && CallUpdate in calls[i..]
  }

  lemma Behind(calls: seq<Call>, ref: Ref, active: bool, i: nat)
    requires calls != []
    ensures RemovesAt(calls, ref, active, i + 1) <==> RemovesAt(calls[1..], ref, active || calls[0] == CallUpdate, i)
    ensures i < |calls| ==> calls[1..][i..] == calls[i + 1..]
  {
    if i + 1 < |calls| { assert calls[..i + 1] == [calls[0]] + calls[1..][..i]; }
  }

  lemma AtFront(calls: seq<Call>, ref: Ref, active: bool)
    requires calls != []
    ensures RemovesAt(calls, ref, active, 0) <==> calls[0].CallRemove? && calls[0].ref == ref && (active || calls[0].allowPendingAdd)
    ensures calls[0..] == calls && (CallUpdate in calls <==> calls[0] == CallUpdate || CallUpdate in calls[1..])
  {
    assert calls == [calls[0]] + calls[1..];
  }

  lemma FirstRemoves(calls: seq<Call>, ref: Ref, active: bool)
    requires calls != []
    ensures Removes(calls, ref, active) <==>
      RemovesAt(calls, ref, active, 0) || Removes(calls[1..], ref, active || calls[0] == CallUpdate)
  {
    hide RemovesAt;
    var rest, live := calls[1..], active || calls[0] == CallUpdate;
    if Removes(rest, ref, live) {
      var i: nat :| RemovesAt(rest, ref, live, i);
      Behind(calls, ref, active, i);
    }
    if Removes(calls, ref, active) {
      var i: nat :| RemovesAt(calls, ref, active, i);
      if i > 0 { Behind(calls, ref, active, i - 1); }
    }
  }

  lemma FirstEnds(calls: seq<Call>, ref: Ref, active: bool)
    requires calls != []
    ensures Ends(calls, ref, active) <==>
      (RemovesAt(calls, ref, active, 0) && CallUpdate in calls) || Ends(calls[1..], ref, active || calls[0] == CallUpdate)
  {
    var rest, live := calls[1..], active || calls[0] == CallUpdate;
    AtFront(calls, ref, active);
    hide RemovesAt;
    if Ends(rest, ref, live) {
      var i: nat :| i < |rest| && RemovesAt(rest, ref, live, i) && CallUpdate in rest[i..];
      Behind(calls, ref, active, i);
    }
    if Ends(calls, ref, active) {
      var i: nat :| i < |calls| && RemovesAt(calls, ref, active, i) && CallUpdate in calls[i..];
      if i > 0 { Behind(calls, ref, active, i - 1); }
    }
  }

  /** The slot of a valid reference after any calls: which of them removes it, and whether an update follows. */
  lemma {:induction false} LifeFrom(w: World, calls: seq<Call>, w': World, ref: Ref)
    requires Sound(w) && Run(w, calls, w') && 0 <= ref.entity < MAX_ENTITIES
    ensures Sound(w')
    ensures w.sequences[ref.entity] == ref.sequence && w.states[ref.entity] == PendingRemove ==>
      IsValid(w', ref, false) == IsValid(w', ref, true) == (CallUpdate !in calls)
    ensures w.sequences[ref.entity] == ref.sequence && (w.states[ref.entity] == Active || w.states[ref.entity] == PendingAdd) ==>
      var active := w.states[ref.entity] == Active;
      && (IsValid(w', ref, true) <==> !Ends(calls, ref, active))
      && (IsValid(w', ref, false) <==> !Ends(calls, ref, active) && (active || CallUpdate in calls || Removes(calls, ref, active)))
    ensures IsValid(w, ref, true) && IsValid(w', ref, true) ==> w'.masks[ref.entity] == w.masks[ref.entity]
    decreases |calls|
  {
    hide Removes, Ends;
    if calls == [] {
      NoCalls(ref);
    } else {
      UpdatesEnd(calls[1..], ref);
      var c := calls[0];
      var w1 := After(w, c);
      CallKeeps(w, c, ref);
      var active := w.states[ref.entity] == Active;
      AtFront(calls, ref, active);
      FirstRemoves(calls, ref, active);
      FirstEnds(calls, ref, active);
      LifeFrom(w1, calls[1..], w', ref);
      ValidOrDead(w1, calls[1..], w', ref, true);
    }
  }

  lemma UpdatesEnd(calls: seq<Call>, ref: Ref)
    ensures forall active :: Ends(calls, ref, active) ==> CallUpdate in calls
  {
  }

  lemma NoCalls(ref: Ref)
    ensures forall active :: !Removes([], ref, active) && !Ends([], ref, active)
  {
  }

  /** The life of an entity over any run from its addition. Its reference is valid until the first update
      behind a call that removes it, and without pending from the first update or that call on. While it is
      valid, a query visits its slot exactly from then on and for the masks that its own mask contains. */
  lemma Lifetime(w: World, mask: bv64, calls: seq<Call>, w': World, m: bv64)
    requires Sound(w) && Added(w, mask).1.entity >= 0 && Run(Added(w, mask).0, calls, w')
    ensures var ref := Added(w, mask).1;
      && Shaped(w') && ref.entity < MAX_ENTITIES
      && (IsValid(w', ref, true) <==> !Ends(calls, ref, false))
      && (IsValid(w', ref, false) <==> !Ends(calls, ref, false) && (CallUpdate in calls || Removes(calls, ref, false)))
      && (IsValid(w', ref, true) ==> (Matched(w', m, ref.entity) <==> IsValid(w', ref, false) && mask & m == m))
  {
    hide Removes, Ends;
    var (w1, ref) := Added(w, mask);
    CallKeeps(w, CallAdd(mask), ref);
    LifeFrom(w1, calls, w', ref);
    ContainsIs(mask, m);
    hide Contains;
  }
}
