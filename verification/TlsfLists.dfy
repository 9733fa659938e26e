/** The segregated free lists of the TLSF allocator: 800 doubly linked lists threaded through the
    free blocks, all ending at the control structure's null block. */
module TlsfLists {

  /** Word address of control->block_null; the words 0 to 3 are not addressable, so that 0 is NULL. */
  const NULL_BLOCK := 4

  /** A listed block: its list, its neighbours there, and when it was inserted. */
  datatype Link = Link(cls: nat, next: nat, prev: nat, stamp: nat)

  ghost predicate NextOk(L: map<nat, Link>, b: nat)
    requires b in L
  {
    var n := L[b].next;
    n == NULL_BLOCK || (n in L && L[n].prev == b && L[n].cls == L[b].cls && L[n].stamp < L[b].stamp)
  }

  ghost predicate PrevOk(L: map<nat, Link>, heads: seq<nat>, b: nat)
    requires b in L && L[b].cls < |heads|
  {
    var p := L[b].prev;
    && (p != NULL_BLOCK ==> p in L && L[p].next == b && L[p].cls == L[b].cls && L[b].stamp < L[p].stamp)
    && (p == NULL_BLOCK <==> heads[L[b].cls] == b)
  }

  ghost predicate LinkOk(L: map<nat, Link>, heads: seq<nat>, clock: nat, b: nat)
    requires b in L
  {
    L[b].cls < |heads| && L[b].stamp < clock && NextOk(L, b) && PrevOk(L, heads, b)
  }

  ghost predicate HeadOk(L: map<nat, Link>, heads: seq<nat>, c: nat)
    requires c < |heads|
  {
    heads[c] == NULL_BLOCK || (heads[c] in L && L[heads[c]].cls == c)
  }

  /** Neighbours agree, stamps fall along a list, and each head is its list's newest block. */
  ghost predicate Lists(L: map<nat, Link>, heads: seq<nat>, clock: nat) {
    && NULL_BLOCK !in L
    && (forall b | b in L :: LinkOk(L, heads, clock, b))
    && (forall c: nat | c < |heads| :: HeadOk(L, heads, c))
  }

  function WithPrev(L: map<nat, Link>, b: nat, p: nat): map<nat, Link> {
    if b in L then L[b := L[b].(prev := p)] else L
  }

  function WithNext(L: map<nat, Link>, b: nat, n: nat): map<nat, Link> {
    if b in L then L[b := L[b].(next := n)] else L
  }

  /** insert_free_block on the links: b becomes the head of list c. */
  function Inserted(L: map<nat, Link>, heads: seq<nat>, clock: nat, b: nat, c: nat): map<nat, Link>
    requires c < |heads|
  {
    WithPrev(L, heads[c], b)[b := Link(c, heads[c], NULL_BLOCK, clock)]
  }

  /** remove_free_block on the links. */
  function Removed(L: map<nat, Link>, b: nat): map<nat, Link>
    requires b in L
  {
    WithNext(WithPrev(L - {b}, L[b].next, L[b].prev), L[b].prev, L[b].next)
  }

  function HeadsRemoved(L: map<nat, Link>, heads: seq<nat>, b: nat): seq<nat>
    requires b in L && L[b].cls < |heads|
  {
    if heads[L[b].cls] == b then heads[L[b].cls := L[b].next] else heads
  }

  lemma InsertKeeps(L: map<nat, Link>, heads: seq<nat>, clock: nat, b: nat, c: nat)
    requires Lists(L, heads, clock) && b !in L && b != NULL_BLOCK && c < |heads|
    ensures Lists(Inserted(L, heads, clock, b, c), heads[c := b], clock + 1)
    ensures Inserted(L, heads, clock, b, c).Keys == L.Keys + {b}
  {
    var cur := heads[c];
    var L2 := Inserted(L, heads, clock, b, c);
    var heads2 := heads[c := b];
    assert HeadOk(L, heads, c);
    assert NextOk(L2, b);
    assert PrevOk(L2, heads2, b);
    forall x | x in L2 ensures LinkOk(L2, heads2, clock + 1, x) {
      if x != b { InsertKeepsAt(L, heads, clock, b, c, x); }
    }
    forall c2: nat | c2 < |heads2| ensures HeadOk(L2, heads2, c2) {
      assert HeadOk(L, heads, c2);
    }
  }

  lemma InsertKeepsAt(L: map<nat, Link>, heads: seq<nat>, clock: nat, b: nat, c: nat, x: nat)
    requires Lists(L, heads, clock) && b !in L && b != NULL_BLOCK && c < |heads| && x in L
    ensures x in Inserted(L, heads, clock, b, c)
    ensures LinkOk(Inserted(L, heads, clock, b, c), heads[c := b], clock + 1, x)
  {
    assert LinkOk(L, heads, clock, x);
    assert HeadOk(L, heads, c);
    var cur := heads[c];
    var L2 := Inserted(L, heads, clock, b, c);
    if x == cur {
      assert L2[x].prev == b;
      assert L2[b].next == x;
    }
    if cur in L { assert LinkOk(L, heads, clock, cur); }
    assert NextOk(L2, x);
    assert PrevOk(L2, heads[c := b], x);
  }

  lemma RemoveKeeps(L: map<nat, Link>, heads: seq<nat>, clock: nat, b: nat)
    requires Lists(L, heads, clock) && b in L
    ensures L[b].cls < |heads| && Lists(Removed(L, b), HeadsRemoved(L, heads, b), clock)
    ensures Removed(L, b).Keys == L.Keys - {b}
  {
    assert LinkOk(L, heads, clock, b);
    var L2 := Removed(L, b);
    var heads2 := HeadsRemoved(L, heads, b);
    forall x | x in L2 ensures LinkOk(L2, heads2, clock, x) {
      RemoveKeepsAt(L, heads, clock, b, x);
    }
    forall c: nat | c < |heads2| ensures HeadOk(L2, heads2, c) {
      assert HeadOk(L, heads, c);
    }
  }

  lemma RemoveKeepsAt(L: map<nat, Link>, heads: seq<nat>, clock: nat, b: nat, x: nat)
    requires Lists(L, heads, clock) && b in L && x in L && x != b && L[b].cls < |heads|
    ensures x in Removed(L, b)
    ensures LinkOk(Removed(L, b), HeadsRemoved(L, heads, b), clock, x)
  {
    RemoveKeepsNext(L, heads, clock, b, x);
    RemoveKeepsPrev(L, heads, clock, b, x);
    assert LinkOk(L, heads, clock, x);
    hide NextOk, PrevOk;
    assert Removed(L, b)[x].cls == L[x].cls && Removed(L, b)[x].stamp == L[x].stamp;
  }

  lemma RemoveKeepsNext(L: map<nat, Link>, heads: seq<nat>, clock: nat, b: nat, x: nat)
    requires Lists(L, heads, clock) && b in L && x in L && x != b && L[b].cls < |heads|
    ensures x in Removed(L, b) && NextOk(Removed(L, b), x)
  {
    assert LinkOk(L, heads, clock, b);
    assert LinkOk(L, heads, clock, x);
    var n, p := L[b].next, L[b].prev;
    if n in L { assert LinkOk(L, heads, clock, n); }
    RemovedAt(L, b, x);
    if n in L && n != b { RemovedAt(L, b, n); }
    if L[x].next in L && L[x].next != b { RemovedAt(L, b, L[x].next); }
    hide Removed;
  }

  lemma RemovedAt(L: map<nat, Link>, b: nat, x: nat)
    requires b in L && x in L && x != b
    ensures x in Removed(L, b) && Removed(L, b)[x].cls == L[x].cls && Removed(L, b)[x].stamp == L[x].stamp
    ensures Removed(L, b)[x].next == if x == L[b].prev then L[b].next else L[x].next
    ensures Removed(L, b)[x].prev == if x == L[b].next then L[b].prev else L[x].prev
  {
  }

  lemma RemoveKeepsPrev(L: map<nat, Link>, heads: seq<nat>, clock: nat, b: nat, x: nat)
    requires Lists(L, heads, clock) && b in L && x in L && x != b && L[b].cls < |heads|
    ensures x in Removed(L, b) && PrevOk(Removed(L, b), HeadsRemoved(L, heads, b), x)
  {
    assert LinkOk(L, heads, clock, b);
    assert LinkOk(L, heads, clock, x);
    var n, p := L[b].next, L[b].prev;
    if p in L { assert LinkOk(L, heads, clock, p); }
    RemovedAt(L, b, x);
    if p in L && p != b { RemovedAt(L, b, p); }
    if L[x].prev in L && L[x].prev != b { RemovedAt(L, b, L[x].prev); }
    hide Removed;
  }

  /** The head of a listed block's list is at least as new as the block. */
  lemma {:induction false} HeadOfListed(L: map<nat, Link>, heads: seq<nat>, clock: nat, b: nat)
    requires Lists(L, heads, clock) && b in L
    ensures L[b].cls < |heads|
    ensures var h := heads[L[b].cls]; h in L && L[h].cls == L[b].cls && (h == b || L[b].stamp < L[h].stamp)
    decreases clock - L[b].stamp
  {
    assert LinkOk(L, heads, clock, b);
    if L[b].prev != NULL_BLOCK {
      assert LinkOk(L, heads, clock, L[b].prev);
      HeadOfListed(L, heads, clock, L[b].prev);
    }
  }

  /** The blocks met when following next_free from b. */
  ghost function Chain(L: map<nat, Link>, heads: seq<nat>, clock: nat, b: nat): (s: seq<nat>)
    requires Lists(L, heads, clock) && (b == NULL_BLOCK || b in L)
    decreases if b in L then L[b].stamp + 1 else 0
  {
    if b == NULL_BLOCK then [] else
      assert LinkOk(L, heads, clock, b);
      [b] + Chain(L, heads, clock, L[b].next)
  }

  /** Each listed block is on exactly one list, the one of its class, and nothing else is there. */
  lemma OnExactlyItsList(L: map<nat, Link>, heads: seq<nat>, clock: nat, b: nat, c: nat)
    requires Lists(L, heads, clock) && c < |heads| && b != NULL_BLOCK
    ensures heads[c] == NULL_BLOCK || heads[c] in L
    ensures b in Chain(L, heads, clock, heads[c]) <==> b in L && L[b].cls == c
  {
    assert HeadOk(L, heads, c);
    if heads[c] in L { ChainInClass(L, heads, clock, heads[c], b); }
    if b in L && L[b].cls == c {
      HeadOfListed(L, heads, clock, b);
      ChainReaches(L, heads, clock, heads[c], b);
    }
  }

  lemma {:induction false} ChainInClass(L: map<nat, Link>, heads: seq<nat>, clock: nat, a: nat, b: nat)
    requires Lists(L, heads, clock) && a in L
    ensures b in Chain(L, heads, clock, a) ==> b in L && L[b].cls == L[a].cls
    decreases L[a].stamp
  {
    assert LinkOk(L, heads, clock, a);
    if L[a].next != NULL_BLOCK {
      ChainInClass(L, heads, clock, L[a].next, b);
    } else {
      assert Chain(L, heads, clock, L[a].next) == [];
    }
  }

  /** Going back from b one reaches the head, so going forward from the head one reaches b. */
  lemma {:induction false} ChainReaches(L: map<nat, Link>, heads: seq<nat>, clock: nat, h: nat, b: nat)
    requires Lists(L, heads, clock) && b in L && L[b].cls < |heads| && h == heads[L[b].cls] && h in L
    ensures b in Chain(L, heads, clock, h)
    decreases clock - L[b].stamp
  {
    assert LinkOk(L, heads, clock, b);
    var p := L[b].prev;
    if p != NULL_BLOCK {
      assert LinkOk(L, heads, clock, p);
      ChainReaches(L, heads, clock, h, p);
      ChainStep(L, heads, clock, h, p);
    }
  }

  lemma {:induction false} ChainStep(L: map<nat, Link>, heads: seq<nat>, clock: nat, a: nat, p: nat)
    requires Lists(L, heads, clock) && a in L && p in Chain(L, heads, clock, a)
    ensures p in L && (L[p].next == NULL_BLOCK || L[p].next in Chain(L, heads, clock, a))
    decreases L[a].stamp
  {
    assert LinkOk(L, heads, clock, a);
    if a != p {
      ChainStep(L, heads, clock, L[a].next, p);
    } else if L[a].next != NULL_BLOCK {
      assert L[a].next in Chain(L, heads, clock, L[a].next);
    }
  }
}
