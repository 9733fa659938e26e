/** The semaphore ring queue, as interleaved steps of any number of threads. Each call of
    queue_push or queue_pop (or of their non-blocking twins, once they have acquired) is four steps:
    acquire, ticket, store or load, release. */
module Queue {

  /** Where a thread is between two steps. */
  datatype Thread<T> =
    | Idle
    | PushAcquired(item: T)
    | PushTicket(item: T, index: nat)
    | PushStored
    | PopAcquired
    | PopTicket(index: nat)
    | PopLoaded(item: T)

  /** The shared fields, the threads, and what was pushed (in the order of tickets) and popped. */
  datatype State<T> = State(
    capacity: nat, used: nat, free: nat, items: seq<T>, head: nat, tail: nat,
    threads: seq<Thread<T>>, pushed: seq<T>, popped: seq<T>)

  datatype Action<T> = BeginPush(item: T) | BeginPop | Continue

  function AllIdle<T>(n: nat): seq<Thread<T>> { seq(n, _ => Idle) }

  /** queue_create: `items` is whatever the fresh memory holds. */
  function Create<T>(items: seq<T>, threads: nat): (s: State<T>) {
    State(|items|, 0, |items|, items, 0, 0, AllIdle(threads), [], [])
  }

  /** ReleaseSemaphore: at the maximum it fails and changes nothing. */
  function Release(count: nat, max: nat): nat {
    if count < max then count + 1 else count
  }

  predicate Enabled<T>(s: State<T>, t: nat, a: Action<T>) {
    && t < |s.threads|
    && match a
       case BeginPush(_) => s.threads[t].Idle? && s.free > 0
       case BeginPop => s.threads[t].Idle? && s.used > 0
       case Continue => !s.threads[t].Idle?
  }

  /** One step of thread t. */
  function Step<T>(s: State<T>, t: nat, a: Action<T>): (s': State<T>)
    requires Enabled(s, t, a) && s.capacity > 0 && |s.items| == s.capacity
  {
    match a
    case BeginPush(x) => s.(free := s.free - 1, threads := s.threads[t := PushAcquired(x)])
    case BeginPop => s.(used := s.used - 1, threads := s.threads[t := PopAcquired])
    case Continue =>
      match s.threads[t]
      case PushAcquired(x) =>
        s.(tail := s.tail + 1, threads := s.threads[t := PushTicket(x, s.tail % s.capacity)], pushed := s.pushed + [x])
      case PushTicket(x, i) =>
        s.(items := if i < |s.items| then s.items[i := x] else s.items, threads := s.threads[t := PushStored])
      case PushStored => s.(used := Release(s.used, s.capacity), threads := s.threads[t := Idle])
      case PopAcquired => s.(head := s.head + 1, threads := s.threads[t := PopTicket(s.head % s.capacity)])
      case PopTicket(i) =>
        if i < |s.items| then s.(threads := s.threads[t := PopLoaded(s.items[i])], popped := s.popped + [s.items[i]]) else s
      case PopLoaded(_) => s.(free := Release(s.free, s.capacity), threads := s.threads[t := Idle])
  }

  /** s' is reached from s by these steps. */
  ghost predicate Run<T>(s: State<T>, steps: seq<(nat, Action<T>)>, s': State<T>)
    requires s.capacity > 0 && |s.items| == s.capacity
    decreases |steps|
  {
    if steps == [] then s' == s else
      Enabled(s, steps[0].0, steps[0].1) && Run(Step(s, steps[0].0, steps[0].1), steps[1..], s')
  }

  // ------------------------------------------- any number of threads

  function InFlight<T>(threads: seq<Thread<T>>): nat {
    if threads == [] then 0 else InFlight(threads[..|threads| - 1]) + (if threads[|threads| - 1].Idle? then 0 else 1)
  }

  lemma {:induction false} InFlightUpdate<T>(threads: seq<Thread<T>>, t: nat, v: Thread<T>)
    requires t < |threads|
    ensures InFlight(threads[t := v]) + (if threads[t].Idle? then 0 else 1) == InFlight(threads) + (if v.Idle? then 0 else 1)
  {
    var n := |threads| - 1;
    if t < n {
      assert threads[t := v][..n] == threads[..n][t := v];
      InFlightUpdate(threads[..n], t, v);
    } else {
      assert threads[t := v][..n] == threads[..n];
    }
  }

  lemma {:induction false} InFlightIdle<T>(n: nat)
    ensures InFlight(AllIdle<T>(n)) == 0
  {
    if n > 0 {
      assert AllIdle<T>(n)[..n - 1] == AllIdle<T>(n - 1);
      InFlightIdle<T>(n - 1);
    }
  }

  /** Slots that are used, free or in flight make up the capacity. */
  ghost predicate Conserved<T>(s: State<T>) {
    && s.capacity > 0 && |s.items| == s.capacity
    && s.used + s.free + InFlight(s.threads) == s.capacity
    && forall t | 0 <= t < |s.threads| :: match s.threads[t]
         case PushTicket(_, i) => i < s.capacity
         case PopTicket(i) => i < s.capacity
         case _ => true
  }

  lemma StepConserves<T>(s: State<T>, t: nat, a: Action<T>)
    requires Conserved(s) && Enabled(s, t, a)
    ensures Conserved(Step(s, t, a)) && Step(s, t, a).capacity == s.capacity
    ensures s.threads[t].PushStored? ==> s.used < s.capacity
    ensures s.threads[t].PopLoaded? ==> s.free < s.capacity
  {
    var s' := Step(s, t, a);
    hide InFlight;
    InFlightUpdate(s.threads, t, s'.threads[t]);
    if !s.threads[t].Idle? { BusyCounts(s.threads, t); }
    assert s'.threads == s.threads[t := s'.threads[t]];
  }

  lemma {:induction false} BusyCounts<T>(threads: seq<Thread<T>>, t: nat)
    requires t < |threads| && !threads[t].Idle?
    ensures InFlight(threads) > 0
  {
    if t < |threads| - 1 { BusyCounts(threads[..|threads| - 1], t); }
  }

  /** With any number of threads, used and free slots and slots in flight always add up to the
      capacity, so neither semaphore is ever released beyond its maximum. */
  lemma {:induction false} CapacityConserved<T>(s: State<T>, steps: seq<(nat, Action<T>)>, s': State<T>)
    requires Conserved(s) && Run(s, steps, s')
    ensures Conserved(s') && s'.capacity == s.capacity && s'.used <= s.capacity && s'.free <= s.capacity
    decreases |steps|
  {
    if steps != [] {
      StepConserves(s, steps[0].0, steps[0].1);
      CapacityConserved(Step(s, steps[0].0, steps[0].1), steps[1..], s');
    }
  }

  /** And so they do from the start of a queue. */
  lemma CapacityFromStart<T>(items: seq<T>, threads: nat, steps: seq<(nat, Action<T>)>, s': State<T>)
    requires |items| > 0 && Run(Create(items, threads), steps, s')
    ensures Conserved(s') && s'.capacity == |items| && s'.used <= |items| && s'.free <= |items|
  {
    InFlightIdle<T>(threads);
    CapacityConserved(Create(items, threads), steps, s');
  }

  // ------------------------------------------ who pushes and who pops

  /** Only some of the threads push, and only some pop. */
  predicate Permits<T>(t: nat, a: Action<T>, pushers: set<nat>, poppers: set<nat>) {
    (a.BeginPush? ==> t in pushers) && (a.BeginPop? ==> t in poppers)
  }

  predicate By<T>(steps: seq<(nat, Action<T>)>, pushers: set<nat>, poppers: set<nat>) {
    forall k | 0 <= k < |steps| :: Permits(steps[k].0, steps[k].1, pushers, poppers)
  }

  predicate Within(threads: nat, ts: set<nat>) {
    forall t | t in ts :: t < threads
  }

  /** Whatever these threads do, items come out in the order in which they went in. */
  ghost predicate FifoAlways<T(!new)>(items: seq<T>, threads: nat, pushers: set<nat>, poppers: set<nat>)
    requires |items| > 0
  {
    forall steps: seq<(nat, Action<T>)>, s' ::
      Run(Create(items, threads), steps, s') && By(steps, pushers, poppers) ==> s'.popped <= s'.pushed
  }

  // ------------------------------------------ one pusher and one popper

  /** What a thread is doing as a pusher, and as a popper. */
  function Pushing<T>(p: Thread<T>): Thread<T> {
    if p.PushAcquired? || p.PushTicket? || p.PushStored? then p else Idle
  }

  function Popping<T>(p: Thread<T>): Thread<T> {
    if p.PopAcquired? || p.PopTicket? || p.PopLoaded? then p else Idle
  }

  /** Tickets taken whose item is not stored yet. */
  function Unstored<T>(p: Thread<T>): nat { if p.PushTicket? then 1 else 0 }

  /** Tickets taken that used_items does not count yet. */
  function Unreleased<T>(p: Thread<T>): nat { if p.PushTicket? || p.PushStored? then 1 else 0 }

  function Acquired<T>(p: Thread<T>): nat { if p.PushAcquired? || p.PopAcquired? then 1 else 0 }

  ghost predicate SlotOk<T>(s: State<T>, i: nat) {
    i < |s.pushed| && s.capacity > 0 && i % s.capacity < |s.items| && s.items[i % s.capacity] == s.pushed[i]
  }

  /** Thread p pushes and thread q, which may be the same, pops; the others are idle. */
  ghost predicate Roles<T>(s: State<T>, p: nat, q: nat) {
    && p < |s.threads| && q < |s.threads|
    && (p != q ==> s.threads[p] == Pushing(s.threads[p]) && s.threads[q] == Popping(s.threads[q]))
    && forall t | 0 <= t < |s.threads| && t != p && t != q :: s.threads[t].Idle?
  }

  /** Every stored item that is not loaded yet is in its slot, and the counters fit each other. */
  ghost predicate Fifo<T>(s: State<T>, p: nat, q: nat) {
    && s.capacity > 0 && |s.items| == s.capacity && Roles(s, p, q)
    && var push, pop := Pushing(s.threads[p]), Popping(s.threads[q]);
    && |s.pushed| == s.tail && |s.popped| == s.head - (if pop.PopTicket? then 1 else 0)
    && s.head + Acquired(pop) + s.used == s.tail - Unreleased(push)
    && s.free + s.tail + Acquired(push) == s.capacity + |s.popped| - (if pop.PopLoaded? then 1 else 0)
    && (push.PushTicket? ==> s.tail > 0 && push.index == (s.tail - 1) % s.capacity && s.pushed[s.tail - 1] == push.item)
    && (pop.PopTicket? ==> s.head > 0 && pop.index == (s.head - 1) % s.capacity)
    && s.popped <= s.pushed
    && forall i: nat | |s.popped| <= i < s.tail - Unstored(push) :: SlotOk(s, i)
  }

  lemma Quotient(i: nat, n: nat)
    requires n > 0
    ensures i == (i / n) * n + i % n && i % n < n
  {
  }

  lemma {:induction false} Multiple(a: nat, b: nat, n: nat)
    ensures a < b ==> a * n + n <= b * n
    ensures a == b ==> a * n == b * n
    decreases b
  {
    if a < b {
      assert b * n == (b - 1) * n + n;
      Multiple(a, b - 1, n);
    }
  }

  lemma ModDistinct(i: nat, j: nat, n: nat)
    requires n > 0 && i < j < i + n
    ensures i % n != j % n
  {
    Quotient(i, n);
    Quotient(j, n);
    Multiple(i / n, j / n, n);
    Multiple(j / n, i / n, n);
  }

  /** A step of the pusher. */
  lemma PushFifo<T>(s: State<T>, a: Action<T>, p: nat, q: nat)
    requires Fifo(s, p, q) && Enabled(s, p, a) && (if a.Continue? then s.threads[p] == Pushing(s.threads[p]) else a.BeginPush?)
    ensures Fifo(Step(s, p, a), p, q)
  {
    if s.threads[p].PushTicket? {
      StoreFifo(s, p, q);
    } else {
      PushElse(s, a, p, q);
    }
  }

  /** Any step of it but the store. */
  lemma PushElse<T>(s: State<T>, a: Action<T>, p: nat, q: nat)
    requires Fifo(s, p, q) && Enabled(s, p, a) && (if a.Continue? then s.threads[p] == Pushing(s.threads[p]) else a.BeginPush?)
    requires !s.threads[p].PushTicket?
    ensures Fifo(Step(s, p, a), p, q)
  {
    var s' := Step(s, p, a);
    forall i: nat | |s'.popped| <= i < s'.tail - Unstored(Pushing(s'.threads[p])) ensures SlotOk(s', i) {
      assert SlotOk(s, i);
    }
  }

  /** A step of the popper. */
  lemma PopFifo<T>(s: State<T>, a: Action<T>, p: nat, q: nat)
    requires Fifo(s, p, q) && Enabled(s, q, a) && (if a.Continue? then s.threads[q] == Popping(s.threads[q]) else a.BeginPop?)
    ensures Fifo(Step(s, q, a), p, q)
  {
    var s' := Step(s, q, a);
    forall i: nat | |s'.popped| <= i < s'.tail - Unstored(Pushing(s'.threads[p])) ensures SlotOk(s', i) {
      assert SlotOk(s, i);
    }
    if s.threads[q].PopTicket? { assert SlotOk(s, s.head - 1); }
  }

  lemma StepFifo<T>(s: State<T>, t: nat, a: Action<T>, p: nat, q: nat)
    requires Fifo(s, p, q) && Enabled(s, t, a) && Permits(t, a, {p}, {q})
    ensures Fifo(Step(s, t, a), p, q)
  {
    assert t == p || t == q;
    if a.BeginPush? || (a.Continue? && s.threads[t] == Pushing(s.threads[t])) {
      PushFifo(s, a, p, q);
    } else {
      PopFifo(s, a, p, q);
    }
  }

  lemma StoreFifo<T>(s: State<T>, p: nat, q: nat)
    requires Fifo(s, p, q) && s.threads[p].PushTicket?
    ensures Fifo(Step(s, p, Continue), p, q)
  {
    var s' := Step(s, p, Continue);
    var last := s.tail - 1;
    forall i: nat | |s'.popped| <= i < s'.tail ensures SlotOk(s', i) {
      if i < last {
        assert SlotOk(s, i);
        ModDistinct(i, last, s.capacity);
      }
    }
  }

  /** With one pusher and one popper, in every interleaving of their steps, the popped items are a
      prefix of the pushed ones. */
  lemma {:induction false} FirstInFirstOut<T>(s: State<T>, steps: seq<(nat, Action<T>)>, s': State<T>, p: nat, q: nat)
    requires Fifo(s, p, q) && Run(s, steps, s') && By(steps, {p}, {q})
    ensures Fifo(s', p, q) && s'.popped <= s'.pushed
    decreases |steps|
  {
    if steps != [] {
      assert Permits(steps[0].0, steps[0].1, {p}, {q});
      StepFifo(s, steps[0].0, steps[0].1, p, q);
      FirstInFirstOut(Step(s, steps[0].0, steps[0].1), steps[1..], s', p, q);
    }
  }

  lemma CreateFifo<T>(items: seq<T>, threads: nat, p: nat, q: nat)
    requires |items| > 0 && p < threads && q < threads
    ensures Fifo(Create(items, threads), p, q)
  {
  }

  // -------------------------------------------------------- a single slot

  /** With one slot at most one thread is between two steps, and what it does shows what is in the slot. */
  ghost predicate OneSlot<T>(s: State<T>) {
    && s.capacity == 1 && |s.items| == 1 && s.used + s.free <= 1
    && (forall t, u | 0 <= t < u < |s.threads| :: s.threads[t].Idle? || s.threads[u].Idle?)
    && (s.used + s.free == 1 ==> forall t | 0 <= t < |s.threads| :: s.threads[t].Idle?)
    && (s.used == 1 ==> s.pushed == s.popped + s.items)
    && (s.free == 1 ==> s.pushed == s.popped)
    && s.popped <= s.pushed
    && forall t | 0 <= t < |s.threads| :: match s.threads[t]
         case Idle => true
         case PushAcquired(_) => s.pushed == s.popped
         case PushTicket(x, i) => i == 0 && s.pushed == s.popped + [x]
         case PushStored => s.pushed == s.popped + s.items
         case PopAcquired => s.pushed == s.popped + s.items
         case PopTicket(i) => i == 0 && s.pushed == s.popped + s.items
         case PopLoaded(_) => s.pushed == s.popped
  }

  lemma StepOneSlot<T>(s: State<T>, t: nat, a: Action<T>)
    requires OneSlot(s) && Enabled(s, t, a)
    ensures OneSlot(Step(s, t, a))
  {
  }

  /** With a capacity of one, any number of threads may push and pop. */
  lemma {:induction false} OneSlotFifo<T>(s: State<T>, steps: seq<(nat, Action<T>)>, s': State<T>)
    requires OneSlot(s) && Run(s, steps, s')
    ensures OneSlot(s') && s'.popped <= s'.pushed
    decreases |steps|
  {
    if steps != [] {
      StepOneSlot(s, steps[0].0, steps[0].1);
      OneSlotFifo(Step(s, steps[0].0, steps[0].1), steps[1..], s');
    }
  }

  // ------------------------------------------------- nothing goes in or out

  lemma {:induction false} NoneIn<T>(s: State<T>, steps: seq<(nat, Action<T>)>, s': State<T>, poppers: set<nat>)
    requires s.capacity > 0 && |s.items| == s.capacity && s.used == 0 && forall t | 0 <= t < |s.threads| :: s.threads[t].Idle?
    requires Run(s, steps, s') && By(steps, {}, poppers)
    ensures s' == s
  {
    if steps != [] { assert false; }
  }

  lemma {:induction false} NoneOut<T>(s: State<T>, steps: seq<(nat, Action<T>)>, s': State<T>, pushers: set<nat>)
    requires s.capacity > 0 && |s.items| == s.capacity && s.popped == [] && forall t | 0 <= t < |s.threads| :: Popping(s.threads[t]).Idle?
    requires Run(s, steps, s') && By(steps, pushers, {})
    ensures s'.popped == []
    decreases |steps|
  {
    if steps != [] {
      assert Permits(steps[0].0, steps[0].1, pushers, {});
      NoneOut(Step(s, steps[0].0, steps[0].1), steps[1..], s', pushers);
    }
  }

  // -------------------------------------------- more pushers or more poppers

  lemma {:induction false} RunAppend<T>(s: State<T>, steps: seq<(nat, Action<T>)>, m: State<T>, t: nat, a: Action<T>)
    requires s.capacity > 0 && |s.items| == s.capacity && m.capacity > 0 && |m.items| == m.capacity
    requires Run(s, steps, m) && Enabled(m, t, a)
    ensures Run(s, steps + [(t, a)], Step(m, t, a))
    decreases |steps|
  {
    var more := steps + [(t, a)];
    if steps == [] {
      assert more[1..] == [];
    } else {
      assert more[1..] == steps[1..] + [(t, a)];
      RunAppend(Step(s, steps[0].0, steps[0].1), steps[1..], m, t, a);
    }
  }

  /** m is reached from a new queue by steps of these pushers and poppers. */
  ghost predicate Reached<T>(items: seq<T>, threads: nat, pushers: set<nat>, poppers: set<nat>, steps: seq<(nat, Action<T>)>, m: State<T>) {
    && |items| > 0 && m.capacity == |items| && |m.items| == m.capacity && |m.threads| == threads
    && Run(Create(items, threads), steps, m) && By(steps, pushers, poppers)
  }

  lemma Further<T>(items: seq<T>, threads: nat, pushers: set<nat>, poppers: set<nat>, steps: seq<(nat, Action<T>)>, m: State<T>, t: nat, a: Action<T>)
      returns (steps': seq<(nat, Action<T>)>)
    requires Reached(items, threads, pushers, poppers, steps, m) && Enabled(m, t, a) && Permits(t, a, pushers, poppers)
    ensures Reached(items, threads, pushers, poppers, steps', Step(m, t, a))
  {
    RunAppend(Create(items, threads), steps, m, t, a);
    steps' := steps + [(t, a)];
  }

  /** Thread t pushes x, all four steps of it. */
  lemma PushAll<T>(items: seq<T>, threads: nat, pushers: set<nat>, poppers: set<nat>, steps: seq<(nat, Action<T>)>, m: State<T>, t: nat, x: T)
      returns (steps': seq<(nat, Action<T>)>, m': State<T>)
    requires Reached(items, threads, pushers, poppers, steps, m) && t in pushers && t < threads && m.threads[t].Idle?
    requires 0 < m.free && m.used < m.capacity
    ensures Reached(items, threads, pushers, poppers, steps', m')
    ensures m.tail % m.capacity < |m.items| && m' == m.(free := m.free - 1, used := m.used + 1, tail := m.tail + 1, pushed := m.pushed + [x],
      items := m.items[m.tail % m.capacity := x])
  {
    hide Run, By;
    var m1 := Step(m, t, BeginPush(x));
    steps' := Further(items, threads, pushers, poppers, steps, m, t, BeginPush(x));
    var m2 := Step(m1, t, Continue);
    steps' := Further(items, threads, pushers, poppers, steps', m1, t, Continue);
    var m3 := Step(m2, t, Continue);
    steps' := Further(items, threads, pushers, poppers, steps', m2, t, Continue);
    m' := Step(m3, t, Continue);
    steps' := Further(items, threads, pushers, poppers, steps', m3, t, Continue);
    assert m'.threads == m.threads;
  }

  /** Thread t takes a ticket for x and stops before it stores it. */
  lemma PushStalls<T>(items: seq<T>, threads: nat, pushers: set<nat>, poppers: set<nat>, steps: seq<(nat, Action<T>)>, m: State<T>, t: nat, x: T)
      returns (steps': seq<(nat, Action<T>)>, m': State<T>)
    requires Reached(items, threads, pushers, poppers, steps, m) && t in pushers && t < threads && m.threads[t].Idle? && 0 < m.free
    ensures Reached(items, threads, pushers, poppers, steps', m')
    ensures m' == m.(free := m.free - 1, tail := m.tail + 1, pushed := m.pushed + [x], threads := m.threads[t := PushTicket(x, m.tail % m.capacity)])
  {
    hide Run, By;
    var m1 := Step(m, t, BeginPush(x));
    steps' := Further(items, threads, pushers, poppers, steps, m, t, BeginPush(x));
    m' := Step(m1, t, Continue);
    steps' := Further(items, threads, pushers, poppers, steps', m1, t, Continue);
  }

  /** Thread t takes a ticket for the next item and stops before it loads it. */
  lemma PopStalls<T>(items: seq<T>, threads: nat, pushers: set<nat>, poppers: set<nat>, steps: seq<(nat, Action<T>)>, m: State<T>, t: nat)
      returns (steps': seq<(nat, Action<T>)>, m': State<T>)
    requires Reached(items, threads, pushers, poppers, steps, m) && t in poppers && t < threads && m.threads[t].Idle? && 0 < m.used
    ensures Reached(items, threads, pushers, poppers, steps', m')
    ensures m' == m.(used := m.used - 1, head := m.head + 1, threads := m.threads[t := PopTicket(m.head % m.capacity)])
  {
    hide Run, By;
    var m1 := Step(m, t, BeginPop);
    steps' := Further(items, threads, pushers, poppers, steps, m, t, BeginPop);
    m' := Step(m1, t, Continue);
    steps' := Further(items, threads, pushers, poppers, steps', m1, t, Continue);
  }

  /** With a second pusher and at least two slots: the second takes its ticket and releases before the
      first has stored, and the popper reads a slot that nothing was stored in. The popper may be the
      second pusher. */
  lemma TwoPushersRace<T>(items: seq<T>, threads: nat, pushers: set<nat>, poppers: set<nat>, a: nat, b: nat, p: nat, x: T, y: T)
      returns (steps: seq<(nat, Action<T>)>, s': State<T>)
    requires |items| >= 2 && a in pushers && b in pushers && p in poppers && a != b && a != p && a < threads && b < threads && p < threads
    requires x != items[0]
    ensures Run(Create(items, threads), steps, s') && By(steps, pushers, poppers)
    ensures s'.pushed == [x, y] && s'.popped == [items[0]] && !(s'.popped <= s'.pushed)
  {
    var s := Create(items, threads);
    var m;
    steps, m := PushStalls(items, threads, pushers, poppers, [], s, a, x);
    steps, m := PushAll(items, threads, pushers, poppers, steps, m, b, y);
    steps, m := PopStalls(items, threads, pushers, poppers, steps, m, p);
    s' := Step(m, p, Continue);
    steps := Further(items, threads, pushers, poppers, steps, m, p, Continue);
    assert s'.popped[0] != s'.pushed[0];
  }

  /** With a second popper and at least two slots: the one with the second ticket loads first. The
      pusher may be one of them. */
  lemma TwoPoppersRace<T>(items: seq<T>, threads: nat, pushers: set<nat>, poppers: set<nat>, p: nat, a: nat, b: nat, x: T, y: T)
      returns (steps: seq<(nat, Action<T>)>, s': State<T>)
    requires |items| >= 2 && p in pushers && a in poppers && b in poppers && a != b && a < threads && b < threads && p < threads
    requires x != y
    ensures Run(Create(items, threads), steps, s') && By(steps, pushers, poppers)
    ensures s'.pushed == [x, y] && s'.popped == [y] && !(s'.popped <= s'.pushed)
  {
    var s := Create(items, threads);
    var m;
    steps, m := PushAll(items, threads, pushers, poppers, [], s, p, x);
    steps, m := PushAll(items, threads, pushers, poppers, steps, m, p, y);
    steps, m := PopStalls(items, threads, pushers, poppers, steps, m, a);
    steps, m := PopStalls(items, threads, pushers, poppers, steps, m, b);
    s' := Step(m, b, Continue);
    steps := Further(items, threads, pushers, poppers, steps, m, b, Continue);
    assert s'.popped[0] != s'.pushed[0];
  }

  // -------------------------------------------------------- exactly when

  /** When the order is kept whatever the threads do: with a single slot, with nobody pushing or nobody
      popping, or with one of each at most. */
  predicate OrderKept(capacity: nat, pushers: set<nat>, poppers: set<nat>) {
    capacity == 1 || pushers == {} || poppers == {} || (|pushers| == 1 && |poppers| == 1)
  }

  /** The queue is first-in first-out exactly then. */
  lemma FifoExactly<T(!new)>(items: seq<T>, threads: nat, pushers: set<nat>, poppers: set<nat>, x: T, y: T)
    requires |items| > 0 && x != y && Within(threads, pushers) && Within(threads, poppers)
    ensures FifoAlways(items, threads, pushers, poppers) <==> OrderKept(|items|, pushers, poppers)
  {
    if OrderKept(|items|, pushers, poppers) {
      forall steps: seq<(nat, Action<T>)>, s' | Run(Create(items, threads), steps, s') && By(steps, pushers, poppers)
        ensures s'.popped <= s'.pushed
      {
        KeptRun(items, threads, pushers, poppers, steps, s');
      }
    } else {
      var steps, s' := FailingRun(items, threads, pushers, poppers, x, y);
      assert !FifoAlways(items, threads, pushers, poppers);
    }
  }

  lemma KeptRun<T>(items: seq<T>, threads: nat, pushers: set<nat>, poppers: set<nat>, steps: seq<(nat, Action<T>)>, s': State<T>)
    requires |items| > 0 && OrderKept(|items|, pushers, poppers) && Within(threads, pushers) && Within(threads, poppers)
    requires Run(Create(items, threads), steps, s') && By(steps, pushers, poppers)
    ensures s'.popped <= s'.pushed
  {
    var s := Create(items, threads);
    if |items| == 1 {
      OneSlotFifo(s, steps, s');
    } else if pushers == {} {
      NoneIn(s, steps, s', poppers);
    } else if poppers == {} {
      NoneOut(s, steps, s', pushers);
    } else {
      var p := Only(pushers);
      var q := Only(poppers);
      CreateFifo(items, threads, p, q);
      FirstInFirstOut(s, steps, s', p, q);
    }
  }

  lemma Only(ts: set<nat>) returns (t: nat)
    requires |ts| == 1
    ensures ts == {t}
  {
    t :| t in ts;
    assert |ts - {t}| == 0;
    assert ts == (ts - {t}) + {t};
  }

  /** One more than t. */
  lemma Another(ts: set<nat>, t: nat) returns (u: nat)
    requires |ts| >= 2
    ensures u in ts && u != t
  {
    if ts <= {t} { SubsetSize(ts, t); }
    u :| u in ts && u != t;
  }

  lemma SubsetSize(ts: set<nat>, t: nat)
    requires ts <= {t}
    ensures |ts| <= 1
  {
    if t in ts { assert ts == {t}; } else { assert ts == {}; }
  }

  lemma FailingRun<T>(items: seq<T>, threads: nat, pushers: set<nat>, poppers: set<nat>, x: T, y: T)
      returns (steps: seq<(nat, Action<T>)>, s': State<T>)
    requires |items| > 0 && x != y && !OrderKept(|items|, pushers, poppers) && Within(threads, pushers) && Within(threads, poppers)
    ensures Run(Create(items, threads), steps, s') && By(steps, pushers, poppers) && !(s'.popped <= s'.pushed)
  {
    if |poppers| >= 2 {
      var p :| p in pushers;
      var a := Another(poppers, 0);
      var b := Another(poppers, a);
      steps, s' := TwoPoppersRace(items, threads, pushers, poppers, p, a, b, x, y);
    } else {
      var p :| p in poppers;
      var a := Another(pushers, p);
      var b := Another(pushers, a);
      var z := if items[0] == x then y else x;
      steps, s' := TwoPushersRace(items, threads, pushers, poppers, a, b, p, z, y);
    }
  }
}
