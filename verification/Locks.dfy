/**
 The spin locks of the interrupt handlers: which locks each handler takes, in which order, and what it
 touches under them; why no two cores are ever at work on the same thing, and why no interleaving of
 handlers on the four cores ends with cores waiting for each other.
 */
module Locks {
  const CORES: nat := 4

  /** The sleeping queue, the running queues of a core and the heap's tree, each with its lock. */
  datatype Lock = SleepingQ | RunningQ(core: nat) | Heap

  /** A lock is taken or given back, or what it guards is read or changed. */
  datatype Action = Acquire(lock: Lock) | Access(lock: Lock) | Release(lock: Lock)

  /** The sleeping queue before a running queue before the heap. */
  function Rank(l: Lock): (r: nat) {
    match l
    case SleepingQ => 0
    case RunningQ(_) => 1
    case Heap => 2
  }

  // ----- what the handlers do -----

  /** operator new or delete: KernelHeapAllocator::alloc and free. */
  function HeapCall(): seq<Action> {
    [Acquire(Heap), Access(Heap), Release(Heap)]
  }

  /** ArrayList::add, which allocates a new store and frees the old one when it grows. */
  function AddTrace(grows: bool): seq<Action> {
    if grows then HeapCall() + HeapCall() else []
  }

  /** calcNextCore looks at the queues of all cores, one after the other, unless the task is pinned. */
  function Probes(n: nat): seq<Action> {
    if n == 0 then [] else Probes(n - 1) + OneAccess(RunningQ(n - 1))
  }

  function OneAccess(l: Lock): seq<Action> {
    [Acquire(l), Access(l), Release(l)]
  }

  /** One task that is woken: whether it is pinned, the core it goes to, whether the queue grows. */
  datatype Woken = Woken(pinned: bool, core: nat, grows: bool)

  function WakeOne(w: Woken): seq<Action> {
    (if w.pinned then [] else Probes(CORES))
    + ([Acquire(RunningQ(w.core))] + Transfer(w) + [Release(RunningQ(w.core))])
  }

  /** The task leaves the sleepers and is added to a running queue. */
  function Transfer(w: Woken): seq<Action> {
    [Access(SleepingQ), Access(RunningQ(w.core))] + AddTrace(w.grows)
  }

  /** Each round, and the last search, looks through the sleepers. */
  function WakeRounds(woken: seq<Woken>): seq<Action> {
    [Access(SleepingQ)] + (if woken == [] then [] else WakeOne(woken[0]) + WakeRounds(woken[1..]))
  }

  /** wakeUpTimers and wakeUpLocks */
  function WakeUp(woken: seq<Woken>): seq<Action> {
    [Acquire(SleepingQ)] + WakeRounds(woken) + [Release(SleepingQ)]
  }

  function Reschedule(core: nat, preemptable: bool): seq<Action> {
    if preemptable then OneAccess(RunningQ(core)) else []
  }

  /** The running task leaves its queue and is added to the sleepers. */
  function FallingAsleep(core: nat, grows: bool): seq<Action> {
    OneAccess(RunningQ(core))
    + ([Acquire(SleepingQ)] + ([Access(SleepingQ)] + AddTrace(grows)) + [Release(SleepingQ)])
  }

  /** What a core may do with interrupts masked. */
  datatype Handler =
    | TimerIrq(core: nat, woken: seq<Woken>, preemptable: bool)
    | RescheduleIrq(core: nat, preemptable: bool)
    | SleepIrq(core: nat, grows: bool, preemptable: bool)
    | WakeAllIrq(timers: seq<Woken>, locks: seq<Woken>)
    | HeapUse

  function Trace(h: Handler): seq<Action> {
    match h
    case TimerIrq(core, woken, preemptable) => WakeUp(woken) + Reschedule(core, preemptable)
    case RescheduleIrq(core, preemptable) => Reschedule(core, preemptable)
    case SleepIrq(core, grows, preemptable) =>
      FallingAsleep(core, grows) + Reschedule(core, preemptable)
    case WakeAllIrq(timers, locks) => WakeUp(timers) + WakeUp(locks)
    case HeapUse => HeapCall()
  }

  // ----- what the handlers need -----

  /** The accesses among the actions. */
  function Touched(actions: seq<Action>): seq<Lock> {
    if actions == [] then []
    else (if actions[0].Access? then [actions[0].lock] else []) + Touched(actions[1..])
  }

  function NeedsOfGrowth(grows: bool): seq<Lock> {
    if grows then [Heap, Heap] else []
  }

  function NeedsOfWakeUp(woken: seq<Woken>): seq<Lock> {
    [SleepingQ] + (if woken == [] then [] else NeedsOfWoken(woken[0]) + NeedsOfWakeUp(woken[1..]))
  }

  function NeedsOfWoken(w: Woken): seq<Lock> {
    NeedsOfChoice(w.pinned) + ([SleepingQ, RunningQ(w.core)] + NeedsOfGrowth(w.grows))
  }

  function NeedsOfChoice(pinned: bool): seq<Lock> {
    if pinned then [] else [RunningQ(0), RunningQ(1), RunningQ(2), RunningQ(3)]
  }

  function NeedsOfReschedule(core: nat, preemptable: bool): seq<Lock> {
    if preemptable then [RunningQ(core)] else []
  }

  /**
   What a handler reads and changes, in order: a wake-up goes through the sleepers for every task it
   wakes and once more, looks at the queues of all cores for a task that is not pinned, and moves it;
   a task that falls asleep is moved the other way; a switch looks at the queues of its own core.
   */
  function Needs(h: Handler): seq<Lock> {
    match h
    case TimerIrq(core, woken, preemptable) => NeedsOfWakeUp(woken) + NeedsOfReschedule(core, preemptable)
    case RescheduleIrq(core, preemptable) => NeedsOfReschedule(core, preemptable)
    case SleepIrq(core, grows, preemptable) =>
      [RunningQ(core), SleepingQ] + NeedsOfGrowth(grows) + NeedsOfReschedule(core, preemptable)
    case WakeAllIrq(timers, locks) => NeedsOfWakeUp(timers) + NeedsOfWakeUp(locks)
    case HeapUse => [Heap]
  }

  lemma {:induction false} TouchedOn(a: seq<Action>, b: seq<Action>)
    ensures Touched(a + b) == Touched(a) + Touched(b)
    decreases |a|
  {
    if a == [] {
      assert a + b == b;
    } else {
      var first, rest := if a[0].Access? then [a[0].lock] else [], Touched(a[1..]);
      assert (a + b)[1..] == a[1..] + b;
      TouchedOn(a[1..], b);
      assert Touched(a + b) == first + (rest + Touched(b)) == first + rest + Touched(b);
    }
  }

  lemma TouchedOnce(l: Lock)
    ensures Touched([Acquire(l)]) == [] && Touched([Release(l)]) == [] && Touched([Access(l)]) == [l]
    ensures Touched(OneAccess(l)) == [l]
  {
    assert OneAccess(l) == [Acquire(l)] + [Access(l)] + [Release(l)];
    TouchedOn([Acquire(l)], [Access(l)]);
    TouchedOn([Acquire(l)] + [Access(l)], [Release(l)]);
  }

  lemma TouchedInside(l: Lock, inner: seq<Action>)
    ensures Touched([Acquire(l)] + inner + [Release(l)]) == Touched(inner)
  {
    TouchedOnce(l);
    TouchedOn([Acquire(l)], inner);
    TouchedOn([Acquire(l)] + inner, [Release(l)]);
  }

  lemma GrowthTouches(grows: bool)
    ensures Touched(AddTrace(grows)) == NeedsOfGrowth(grows)
  {
    if grows {
      TouchedOnce(Heap);
      TouchedOn(HeapCall(), HeapCall());
    }
  }

  lemma ProbesTouch()
    ensures Touched(Probes(CORES)) == [RunningQ(0), RunningQ(1), RunningQ(2), RunningQ(3)]
  {
    for n: nat := 0 to CORES
      invariant Touched(Probes(n)) == seq(n, k requires 0 <= k => RunningQ(k))
    {
      TouchedOnce(RunningQ(n));
      TouchedOn(Probes(n), OneAccess(RunningQ(n)));
      assert Probes(n + 1) == Probes(n) + OneAccess(RunningQ(n));
    }
  }

  lemma WakeOneTouches(w: Woken)
    ensures Touched(WakeOne(w)) == NeedsOfWoken(w)
  {
    var first := if w.pinned then [] else Probes(CORES);
    ProbesTouch();
    TransferTouches(w);
    TouchedInside(RunningQ(w.core), Transfer(w));
    TouchedOn(first, [Acquire(RunningQ(w.core))] + Transfer(w) + [Release(RunningQ(w.core))]);
  }

  lemma TransferTouches(w: Woken)
    ensures Touched(Transfer(w)) == [SleepingQ, RunningQ(w.core)] + NeedsOfGrowth(w.grows)
  {
    var out, into := [Access(SleepingQ)], [Access(RunningQ(w.core))];
    GrowthTouches(w.grows);
    TouchedOnce(SleepingQ);
    TouchedOnce(RunningQ(w.core));
    TouchedOn(out, into);
    TouchedOn(out + into, AddTrace(w.grows));
    assert out + into == [Access(SleepingQ), Access(RunningQ(w.core))];
  }

  lemma {:induction false} RoundsTouch(woken: seq<Woken>)
    ensures Touched(WakeRounds(woken)) == NeedsOfWakeUp(woken)
  {
    var search, rest := [Access(SleepingQ)], [];
    if woken != [] {
      rest := WakeOne(woken[0]) + WakeRounds(woken[1..]);
      WakeOneTouches(woken[0]);
      RoundsTouch(woken[1..]);
      TouchedOn(WakeOne(woken[0]), WakeRounds(woken[1..]));
    }
    TouchedOnce(SleepingQ);
    TouchedOn(search, rest);
    assert WakeRounds(woken) == search + rest;
  }

  lemma WakeUpTouches(woken: seq<Woken>)
    ensures Touched(WakeUp(woken)) == NeedsOfWakeUp(woken)
  {
    RoundsTouch(woken);
    TouchedInside(SleepingQ, WakeRounds(woken));
  }

  lemma RescheduleTouches(core: nat, preemptable: bool)
    ensures Touched(Reschedule(core, preemptable)) == NeedsOfReschedule(core, preemptable)
  {
    TouchedOnce(RunningQ(core));
  }

  lemma FallingAsleepTouches(core: nat, grows: bool)
    ensures Touched(FallingAsleep(core, grows)) == [RunningQ(core), SleepingQ] + NeedsOfGrowth(grows)
  {
    var leave, inner := OneAccess(RunningQ(core)), [Access(SleepingQ)] + AddTrace(grows);
    TouchedOnce(RunningQ(core));
    TouchedOnce(SleepingQ);
    GrowthTouches(grows);
    TouchedOn([Access(SleepingQ)], AddTrace(grows));
    TouchedInside(SleepingQ, inner);
    TouchedOn(leave, [Acquire(SleepingQ)] + inner + [Release(SleepingQ)]);
  }

  /** A handler's trace has exactly the accesses it needs. */
  lemma TraceTouches(h: Handler)
    ensures Touched(Trace(h)) == Needs(h)
  {
    match h
    case TimerIrq(core, woken, preemptable) =>
      WakeUpTouches(woken);
      RescheduleTouches(core, preemptable);
      TouchedOn(WakeUp(woken), Reschedule(core, preemptable));
    case RescheduleIrq(core, preemptable) =>
      RescheduleTouches(core, preemptable);
    case SleepIrq(core, grows, preemptable) =>
      FallingAsleepTouches(core, grows);
      RescheduleTouches(core, preemptable);
      TouchedOn(FallingAsleep(core, grows), Reschedule(core, preemptable));
    case WakeAllIrq(timers, locks) =>
      WakeUpTouches(timers);
      WakeUpTouches(locks);
      TouchedOn(WakeUp(timers), WakeUp(locks));
    case HeapUse =>
      TouchedOnce(Heap);
  }

  // ----- the order -----

  /** Every lock held ranks below l. */
  ghost predicate Below(held: set<Lock>, l: Lock) {
    forall k | k in held :: Rank(k) < Rank(l)
  }

  /** Taking locks above all those held and touching only what is locked, the actions lead from `held` to `after`. */
  ghost predicate Leads(actions: seq<Action>, held: set<Lock>, after: set<Lock>)
    decreases |actions|
  {
    if actions == [] then held == after
    else match actions[0]
      case Acquire(l) => Below(held, l) && Leads(actions[1..], held + {l}, after)
      case Access(l) => l in held && Leads(actions[1..], held, after)
      case Release(l) => l in held && Leads(actions[1..], held - {l}, after)
  }

  lemma {:induction false} LeadsOn(a: seq<Action>, b: seq<Action>, held: set<Lock>, middle: set<Lock>, after: set<Lock>)
    requires Leads(a, held, middle) && Leads(b, middle, after)
    ensures Leads(a + b, held, after)
    decreases |a|
  {
    if a == [] {
      assert a + b == b;
    } else {
      assert (a + b)[1..] == a[1..] + b;
      match a[0]
      case Acquire(l) => LeadsOn(a[1..], b, held + {l}, middle, after);
      case Access(l) => LeadsOn(a[1..], b, held, middle, after);
      case Release(l) => LeadsOn(a[1..], b, held - {l}, middle, after);
    }
  }

  /** A lock taken around actions that lead back to where they started. */
  lemma Around(l: Lock, inner: seq<Action>, held: set<Lock>)
    requires l !in held && Below(held, l) && Leads(inner, held + {l}, held + {l})
    ensures Leads([Acquire(l)] + inner + [Release(l)], held, held)
  {
    assert held + {l} - {l} == held;
    assert [Release(l)][1..] == [];
    assert Leads([Release(l)], held + {l}, held);
    assert [Acquire(l)][1..] == [];
    assert Leads([Acquire(l)], held, held + {l});
    LeadsOn([Acquire(l)], inner, held, held + {l}, held + {l});
    LeadsOn([Acquire(l)] + inner, [Release(l)], held, held + {l}, held);
  }

  lemma OneLock(l: Lock, held: set<Lock>)
    requires l !in held && Below(held, l)
    ensures Leads(OneAccess(l), held, held)
  {
    Touches(l, held + {l});
    Around(l, [Access(l)], held);
    assert [Acquire(l)] + [Access(l)] + [Release(l)] == OneAccess(l);
  }

  lemma Touches(l: Lock, held: set<Lock>)
    requires l in held
    ensures Leads([Access(l)], held, held)
  {
    assert [Access(l)][1..] == [];
  }

  lemma AddLeads(grows: bool, held: set<Lock>)
    requires Below(held, Heap)
    ensures Leads(AddTrace(grows), held, held)
  {
    if grows {
      OneLock(Heap, held);
      LeadsOn(HeapCall(), HeapCall(), held, held, held);
    }
  }

  lemma {:induction false} ProbesLead(n: nat, held: set<Lock>)
    requires held <= {SleepingQ}
    ensures Leads(Probes(n), held, held)
  {
    if n > 0 {
      ProbesLead(n - 1, held);
      OneLock(RunningQ(n - 1), held);
      LeadsOn(Probes(n - 1), OneAccess(RunningQ(n - 1)), held, held, held);
    }
  }

  lemma WakeOneLeads(w: Woken, held: set<Lock>)
    requires held == {SleepingQ}
    ensures Leads(WakeOne(w), held, held)
  {
    var first := if w.pinned then [] else Probes(CORES);
    ProbesLead(CORES, held);
    TransferLeads(w, held + {RunningQ(w.core)});
    Around(RunningQ(w.core), Transfer(w), held);
    var second := [Acquire(RunningQ(w.core))] + Transfer(w) + [Release(RunningQ(w.core))];
    LeadsOn(first, second, held, held, held);
    assert WakeOne(w) == first + second;
  }

  lemma TransferLeads(w: Woken, held: set<Lock>)
    requires held == {SleepingQ, RunningQ(w.core)}
    ensures Leads(Transfer(w), held, held)
  {
    Touches(SleepingQ, held);
    Touches(RunningQ(w.core), held);
    LeadsOn([Access(SleepingQ)], [Access(RunningQ(w.core))], held, held, held);
    assert [Access(SleepingQ)] + [Access(RunningQ(w.core))] == [Access(SleepingQ), Access(RunningQ(w.core))];
    AddLeads(w.grows, held);
    LeadsOn([Access(SleepingQ), Access(RunningQ(w.core))], AddTrace(w.grows), held, held, held);
  }

  lemma {:induction false} RoundsLead(woken: seq<Woken>, held: set<Lock>)
    requires held == {SleepingQ}
    ensures Leads(WakeRounds(woken), held, held)
  {
    Touches(SleepingQ, held);
    if woken == [] {
      assert WakeRounds(woken) == [Access(SleepingQ)];
    } else {
      WakeOneLeads(woken[0], held);
      RoundsLead(woken[1..], held);
      LeadsOn(WakeOne(woken[0]), WakeRounds(woken[1..]), held, held, held);
      LeadsOn([Access(SleepingQ)], WakeOne(woken[0]) + WakeRounds(woken[1..]), held, held, held);
    }
  }

  lemma WakeUpLeads(woken: seq<Woken>)
    ensures Leads(WakeUp(woken), {}, {})
  {
    assert {} + {SleepingQ} == {SleepingQ};
    RoundsLead(woken, {SleepingQ});
    Around(SleepingQ, WakeRounds(woken), {});
  }

  lemma RescheduleLeads(core: nat, preemptable: bool)
    ensures Leads(Reschedule(core, preemptable), {}, {})
  {
    if preemptable {
      OneLock(RunningQ(core), {});
    }
  }

  /**
   Every handler, however many tasks it wakes, keeps to the order, touches everything under its lock
   only, and ends with no lock held.
   */
  lemma HandlerKeepsOrder(h: Handler)
    ensures Leads(Trace(h), {}, {})
  {
    match h
    case TimerIrq(core, woken, preemptable) =>
      WakeUpLeads(woken);
      RescheduleLeads(core, preemptable);
      LeadsOn(WakeUp(woken), Reschedule(core, preemptable), {}, {}, {});
    case RescheduleIrq(core, preemptable) =>
      RescheduleLeads(core, preemptable);
    case SleepIrq(core, grows, preemptable) =>
      var leave, inner := OneAccess(RunningQ(core)), [Access(SleepingQ)] + AddTrace(grows);
      var enter := [Acquire(SleepingQ)] + inner + [Release(SleepingQ)];
      var held := {} + {SleepingQ};
      OneLock(RunningQ(core), {});
      Touches(SleepingQ, held);
      AddLeads(grows, held);
      LeadsOn([Access(SleepingQ)], AddTrace(grows), held, held, held);
      Around(SleepingQ, inner, {});
      LeadsOn(leave, enter, {}, {}, {});
      RescheduleLeads(core, preemptable);
      LeadsOn(leave + enter, Reschedule(core, preemptable), {}, {}, {});
    case WakeAllIrq(timers, locks) =>
      WakeUpLeads(timers);
      WakeUpLeads(locks);
      LeadsOn(WakeUp(timers), WakeUp(locks), {}, {}, {});
    case HeapUse =>
      OneLock(Heap, {});
  }

  // ----- the cores together -----

  /** The locks a core holds, what of it the core has begun to work on, and what its handler has still to do. */
  datatype Core = Core(held: set<Lock>, inUse: set<Lock>, todo: seq<Action>)

  type System = seq<Core>

  /** No lock has two holders, and every core is on its way to holding none, in order. */
  ghost predicate Sound(s: System) {
    && (forall c | 0 <= c < |s| :: Leads(s[c].todo, s[c].held, {}) && s[c].inUse <= s[c].held)
    && forall c, d | 0 <= c < d < |s| :: s[c].held !! s[d].held
  }

  ghost predicate Taken(s: System, l: Lock) {
    exists c :: 0 <= c < |s| && l in s[c].held
  }

  /** A core can take its next step unless it spins on a lock that is taken. */
  ghost predicate Ready(s: System, c: nat)
    requires c < |s|
  {
    s[c].todo != [] && (s[c].todo[0].Acquire? ==> !Taken(s, s[c].todo[0].lock))
  }

  ghost function Stepped(core: Core): Core
    requires core.todo != []
  {
    match core.todo[0]
    case Acquire(l) => Core(core.held + {l}, core.inUse, core.todo[1..])
    case Access(l) => Core(core.held, core.inUse + {l}, core.todo[1..])
    case Release(l) => Core(core.held - {l}, core.inUse - {l}, core.todo[1..])
  }

  /** A core takes a step of its handler, or starts one when it has none. */
  ghost predicate Next(s: System, s': System) {
    exists c :: 0 <= c < |s| && NextOf(s, s', c)
  }

  ghost predicate NextOf(s: System, s': System, c: nat)
    requires c < |s|
  {
    || (Ready(s, c) && s' == s[c := Stepped(s[c])])
    || (s[c].todo == [] && exists h :: s' == s[c := Core(s[c].held, s[c].inUse, Trace(h))])
  }

  lemma NextKeepsSound(s: System, s': System)
    requires Sound(s) && Next(s, s')
    ensures Sound(s') && |s'| == |s|
  {
    var c :| 0 <= c < |s| && NextOf(s, s', c);
    if s[c].todo == [] {
      var h :| s' == s[c := Core(s[c].held, s[c].inUse, Trace(h))];
      assert Leads(s[c].todo, s[c].held, {});
      HandlerKeepsOrder(h);
    } else {
      assert Leads(s[c].todo, s[c].held, {});
      assert s[c].todo[0].Acquire? ==> forall d | 0 <= d < |s| :: s[c].todo[0].lock !in s[d].held;
    }
  }

  ghost predicate IsRun(run: seq<System>) {
    && run != []
    && (forall c | 0 <= c < |run[0]| :: run[0][c] == Core({}, {}, []))
    && forall k | 0 <= k < |run| - 1 :: Next(run[k], run[k + 1])
  }

  lemma {:induction false} RunIsSound(run: seq<System>, k: nat)
    requires IsRun(run) && k < |run|
    ensures Sound(run[k]) && |run[k]| == |run[0]|
    decreases k
  {
    if k > 0 {
      RunIsSound(run, k - 1);
      assert Next(run[k - 1], run[k - 1 + 1]);
      NextKeepsSound(run[k - 1], run[k]);
    }
  }

  /** In every interleaving no two cores are at work on the same thing, and nobody begins to where another is. */
  lemma NobodyInterferes(run: seq<System>, k: nat, c: nat, d: nat, l: Lock)
    requires IsRun(run) && k < |run| && c < |run[k]| && d < |run[k]| && c != d
    requires l in run[k][c].inUse
    ensures l !in run[k][d].inUse
    ensures !(run[k][d].todo != [] && run[k][d].todo[0] == Access(l))
  {
    RunIsSound(run, k);
    assert Leads(run[k][d].todo, run[k][d].held, {});
    assert run[k][c].inUse <= run[k][c].held && run[k][d].inUse <= run[k][d].held;
  }

  /** Core c spins on a lock that core d holds. */
  ghost predicate WaitsFor(s: System, c: nat, d: nat)
    requires c < |s| && d < |s|
  {
    s[c].todo != [] && s[c].todo[0].Acquire? && s[c].todo[0].lock in s[d].held
  }

  /** From a core to the one it waits for, the locks waited for go up in rank. */
  lemma WaitsGoUp(s: System, c: nat, d: nat, e: nat)
    requires Sound(s) && c < |s| && d < |s| && e < |s| && WaitsFor(s, c, d) && WaitsFor(s, d, e)
    ensures Rank(s[c].todo[0].lock) < Rank(s[d].todo[0].lock)
  {
    assert Leads(s[d].todo, s[d].held, {});
  }

  /** Each core of the chain waits for the next one. */
  ghost predicate Chain(s: System, chain: seq<nat>) {
    && (forall k | 0 <= k < |chain| :: chain[k] < |s|)
    && forall k | 0 <= k < |chain| - 1 :: WaitsFor(s, chain[k], chain[k + 1])
  }

  lemma {:induction false} ChainGoesUp(s: System, chain: seq<nat>)
    requires Sound(s) && Chain(s, chain) && |chain| >= 3
    ensures chain[0] < |s| && s[chain[0]].todo != []
    ensures chain[|chain| - 2] < |s| && s[chain[|chain| - 2]].todo != []
    ensures Rank(s[chain[0]].todo[0].lock) < Rank(s[chain[|chain| - 2]].todo[0].lock)
    decreases |chain|
  {
    var n := |chain|;
    assert WaitsFor(s, chain[n - 3], chain[n - 3 + 1]) && WaitsFor(s, chain[n - 2], chain[n - 2 + 1]);
    WaitsGoUp(s, chain[n - 3], chain[n - 2], chain[n - 1]);
    if n > 3 {
      ChainGoesUp(s, chain[..n - 1]);
    }
  }

  /** No core waits, over however many others, for itself. */
  lemma NoCircularWait(s: System, chain: seq<nat>)
    requires Sound(s) && Chain(s, chain) && |chain| >= 2
    ensures chain[0] != chain[|chain| - 1]
  {
    if chain[0] == chain[|chain| - 1] {
      assert WaitsFor(s, chain[0], chain[0 + 1]);
      var longer := chain + [chain[1]];
      forall k | 0 <= k < |longer| - 1 ensures WaitsFor(s, longer[k], longer[k + 1]) {
        if k < |chain| - 1 {
          assert longer[k] == chain[k] && longer[k + 1] == chain[k + 1];
          assert WaitsFor(s, chain[k], chain[k + 1]);
        }
      }
      ChainGoesUp(s, longer);
    }
  }

  /** As long as some handler is not done, some core can take a step. */
  lemma SomeoneIsReady(s: System, c: nat) returns (r: nat)
    requires Sound(s) && c < |s| && s[c].todo != []
    ensures r < |s| && Ready(s, r)
    decreases 2 - Rank(s[c].todo[0].lock)
  {
    r := c;
    if !Ready(s, c) {
      var d :| 0 <= d < |s| && s[c].todo[0].lock in s[d].held;
      assert Leads(s[d].todo, s[d].held, {});
      if !Ready(s, d) {
        assert Below(s[d].held, s[d].todo[0].lock);
        r := SomeoneIsReady(s, d);
      } else {
        r := d;
      }
    }
  }

  // ----- why heap calls mask interrupts -----

  /** As Next, for heap calls that do not: a core that is in one may be interrupted by a handler. */
  ghost predicate UnmaskedNext(s: System, s': System) {
    || Next(s, s')
    || exists c, h {:trigger Interrupted(s, c, h)} :: 0 <= c < |s| && Heap in s[c].held && s' == Interrupted(s, c, h)
  }

  ghost function Interrupted(s: System, c: nat, h: Handler): System
    requires c < |s|
  {
    s[c := Core(s[c].held, s[c].inUse, Trace(h) + s[c].todo)]
  }

  ghost predicate IsUnmaskedRun(run: seq<System>) {
    && run != []
    && (forall c | 0 <= c < |run[0]| :: run[0][c] == Core({}, {}, []))
    && forall k | 0 <= k < |run| - 1 :: UnmaskedNext(run[k], run[k + 1])
  }

  lemma Extend(run: seq<System>, s: System)
    requires IsUnmaskedRun(run) && UnmaskedNext(run[|run| - 1], s)
    ensures IsUnmaskedRun(run + [s])
  {
  }

  /** A core that need not wait takes its next step. */
  lemma Go(run: seq<System>, c: nat) returns (longer: seq<System>)
    requires IsUnmaskedRun(run) && c < |run[|run| - 1]| && Ready(run[|run| - 1], c)
    ensures IsUnmaskedRun(longer)
    ensures longer == run + [run[|run| - 1][c := Stepped(run[|run| - 1][c])]]
  {
    var s := run[|run| - 1];
    assert NextOf(s, s[c := Stepped(s[c])], c);
    longer := run + [s[c := Stepped(s[c])]];
    Extend(run, s[c := Stepped(s[c])]);
  }

  /** A core with nothing to do starts a handler. */
  lemma Start(run: seq<System>, c: nat, h: Handler) returns (longer: seq<System>)
    requires IsUnmaskedRun(run) && c < |run[|run| - 1]| && run[|run| - 1][c].todo == []
    ensures IsUnmaskedRun(longer)
    ensures longer == run + [run[|run| - 1][c := Core(run[|run| - 1][c].held, run[|run| - 1][c].inUse, Trace(h))]]
  {
    var s := run[|run| - 1];
    var s' := s[c := Core(s[c].held, s[c].inUse, Trace(h))];
    assert NextOf(s, s', c);
    longer := run + [s'];
    Extend(run, s');
  }

  /**
   With interruptible heap calls two cores can end up waiting for each other: core 0 is interrupted
   while it holds the heap and spins on the sleeping queue; core 1 holds the sleeping queue, wakes a
   task into a queue that has to grow, and spins on the heap.
   */
  lemma UnmaskedDeadlock() returns (run: seq<System>)
    ensures IsUnmaskedRun(run) && |run[|run| - 1]| == CORES
    ensures WaitsFor(run[|run| - 1], 0, 1) && WaitsFor(run[|run| - 1], 1, 0)
  {
    var idle := Core({}, {}, []);
    var wake, grow := WakeAllIrq([], []), WakeAllIrq([Woken(true, 1, true)], []);
    run := [[idle, idle, idle, idle]];
    run := Start(run, 0, HeapUse);
    run := Go(run, 0);
    var s := run[|run| - 1];
    Extend(run, Interrupted(s, 0, wake));
    run := run + [Interrupted(s, 0, wake)];
    run := Start(run, 1, grow);
    GrowTrace();
    assert Trace(grow)[..6][0] == Acquire(SleepingQ) && Trace(grow)[..6][1] == Access(SleepingQ);
    assert Trace(grow)[..6][2] == Acquire(RunningQ(1)) && Trace(grow)[..6][3] == Access(SleepingQ);
    assert Trace(grow)[..6][4] == Access(RunningQ(1)) && Trace(grow)[..6][5] == Acquire(Heap);
    run := UntilHeap(run, Trace(grow));
    assert Trace(wake)[0] == Acquire(SleepingQ);
  }

  /** Core 1 goes on until it wants the heap; the other cores hold nothing that it needs on the way. */
  lemma UntilHeap(run: seq<System>, trace: seq<Action>) returns (longer: seq<System>)
    requires IsUnmaskedRun(run) && |run[|run| - 1]| == CORES
    requires run[|run| - 1][1].todo == trace && run[|run| - 1][1].held == {}
    requires var s := run[|run| - 1]; forall c | 0 <= c < CORES :: s[c].held <= {Heap}
    requires |trace| >= 6 && trace[0] == Acquire(SleepingQ) && trace[1] == Access(SleepingQ)
    requires trace[2] == Acquire(RunningQ(1)) && trace[3] == Access(SleepingQ) && trace[4] == Access(RunningQ(1))
    ensures IsUnmaskedRun(longer) && |longer[|longer| - 1]| == CORES
    ensures var s, s' := run[|run| - 1], longer[|longer| - 1];
            forall c | 0 <= c < CORES && c != 1 :: s'[c] == s[c]
    ensures longer[|longer| - 1][1].todo == trace[5..] && SleepingQ in longer[|longer| - 1][1].held
  {
    var s0 := run[|run| - 1];
    longer := Go(run, 1);
    var s1 := longer[|longer| - 1];
    assert s1[1].held == {SleepingQ};
    assert s1 == s0[1 := Core({SleepingQ}, s0[1].inUse, trace[1..])];
    longer := Go(longer, 1);
    var s2 := longer[|longer| - 1];
    assert s2 == s0[1 := Core({SleepingQ}, s2[1].inUse, trace[2..])];
    longer := Go(longer, 1);
    var s3 := longer[|longer| - 1];
    assert s3[1].held == {SleepingQ, RunningQ(1)};
    assert s3 == s0[1 := Core({SleepingQ, RunningQ(1)}, s3[1].inUse, trace[3..])];
    longer := Go(longer, 1);
    var s4 := longer[|longer| - 1];
    assert s4 == s0[1 := Core({SleepingQ, RunningQ(1)}, s4[1].inUse, trace[4..])];
    longer := Go(longer, 1);
  }

  /** The first steps of a wake-up that makes a queue grow. */
  lemma GrowTrace()
    ensures var grow := Trace(WakeAllIrq([Woken(true, 1, true)], []));
            && |grow| >= 6
            && grow[..6] == [Acquire(SleepingQ), Access(SleepingQ), Acquire(RunningQ(1)), Access(SleepingQ),
                             Access(RunningQ(1)), Acquire(Heap)]
  {
    var w := Woken(true, 1, true);
    assert WakeOne(w) == [Acquire(RunningQ(1))] + Transfer(w) + [Release(RunningQ(1))];
    assert WakeRounds([w]) == [Access(SleepingQ)] + (WakeOne(w) + WakeRounds([]));
  }
}
