/** What the steps of the scheduler do, as relations on values. */
module SchedulerSteps {
  import opened Sequences
  import opened ArrayList
  import opened Queues
  import opened SchedulerState

  // ----- waking -----

  /** Why a sleeping task is woken: its time has come, or nobody owns the lock it waits for. */
  datatype Cause = Expired(now: nat) | Released(ownerless: set<nat>)

  predicate Due(cause: Cause, t: Task) {
    match cause
    case Expired(now) => t.timer != 0 && t.timer <= now
    case Released(ownerless) => t.lock.Some? && t.lock.value in ownerless
  }

  function Cleared(cause: Cause, t: Task): Task {
    match cause
    case Expired(_) => t.(timer := 0)
    case Released(_) => t.(lock := None)
  }

  /** Task t sleeps and is due in the state before; so it is awake, its cause cleared, after. */
  ghost predicate WasDue(cause: Cause, tasks: map<TaskId, Task>, place: map<TaskId, nat>, t: TaskId) {
    t in place && t in tasks && place[t] == SLEEPING && Due(cause, tasks[t])
  }

  ghost predicate Awoken(cause: Cause, tasks: map<TaskId, Task>, place: map<TaskId, nat>,
                         tasks': map<TaskId, Task>, place': map<TaskId, nat>, t: TaskId)
  {
    && t in tasks && t in tasks' && t in place'
    && tasks'[t] == Cleared(cause, tasks[t]) && place'[t] != SLEEPING
  }

  ghost predicate SameTask(tasks: map<TaskId, Task>, place: map<TaskId, nat>,
                           tasks': map<TaskId, Task>, place': map<TaskId, nat>, t: TaskId)
  {
    && (t in tasks <==> t in tasks') && (t in tasks ==> tasks[t] == tasks'[t])
    && (t in place <==> t in place') && (t in place ==> place[t] == place'[t])
  }

  /** Nothing has happened but that tasks which were due have woken. */
  ghost predicate SomeAwoken(cause: Cause, tasks: map<TaskId, Task>, place: map<TaskId, nat>,
                             tasks': map<TaskId, Task>, place': map<TaskId, nat>)
  {
    forall t {:trigger SameTask(tasks, place, tasks', place', t)} ::
      if WasDue(cause, tasks, place, t)
      then Awoken(cause, tasks, place, tasks', place', t) || SameTask(tasks, place, tasks', place', t)
      else SameTask(tasks, place, tasks', place', t)
  }

  /** Exactly the tasks that were due have woken. */
  ghost predicate AllAwoken(cause: Cause, tasks: map<TaskId, Task>, place: map<TaskId, nat>,
                            tasks': map<TaskId, Task>, place': map<TaskId, nat>)
  {
    forall t {:trigger SameTask(tasks, place, tasks', place', t)} ::
      if WasDue(cause, tasks, place, t)
      then Awoken(cause, tasks, place, tasks', place', t)
      else SameTask(tasks, place, tasks', place', t)
  }

  lemma OneMoreAwoken(cause: Cause, tasks: map<TaskId, Task>, place: map<TaskId, nat>,
                      tasks': map<TaskId, Task>, place': map<TaskId, nat>, t: TaskId, q: nat)
    requires SomeAwoken(cause, tasks, place, tasks', place')
    requires WasDue(cause, tasks', place', t) && q != SLEEPING
    ensures SomeAwoken(cause, tasks, place, tasks'[t := Cleared(cause, tasks'[t])], place'[t := q])
  {
    var tasks'', place'' := tasks'[t := Cleared(cause, tasks'[t])], place'[t := q];
    forall u ensures if WasDue(cause, tasks, place, u)
                     then || Awoken(cause, tasks, place, tasks'', place'', u)
                          || SameTask(tasks, place, tasks'', place'', u)
                     else SameTask(tasks, place, tasks'', place'', u)
    {
      assert SameTask(tasks, place, tasks', place', u) || !SameTask(tasks, place, tasks', place', u);
    }
  }

  lemma NoneLeft(cause: Cause, tasks: map<TaskId, Task>, place: map<TaskId, nat>,
                 tasks': map<TaskId, Task>, place': map<TaskId, nat>)
    requires SomeAwoken(cause, tasks, place, tasks', place')
    requires forall t :: !WasDue(cause, tasks', place', t)
    ensures AllAwoken(cause, tasks, place, tasks', place')
  {
    forall t ensures if WasDue(cause, tasks, place, t)
                     then Awoken(cause, tasks, place, tasks', place', t)
                     else SameTask(tasks, place, tasks', place', t)
    {
      assert !WasDue(cause, tasks', place', t);
      assert SameTask(tasks, place, tasks', place', t) || !SameTask(tasks, place, tasks', place', t);
    }
  }

  /** Nobody is lost or made by a wake-up, and no sleeper is due any more. */
  lemma AwokenFacts(cause: Cause, tasks: map<TaskId, Task>, place: map<TaskId, nat>,
                    tasks': map<TaskId, Task>, place': map<TaskId, nat>)
    requires AllAwoken(cause, tasks, place, tasks', place')
    ensures place'.Keys == place.Keys
    ensures forall t :: !WasDue(cause, tasks', place', t)
    ensures NoneDue(cause, tasks', place')
  {
    forall t ensures t in place.Keys <==> t in place'.Keys {
      assert SameTask(tasks, place, tasks', place', t) || !SameTask(tasks, place, tasks', place', t);
    }
    forall t ensures !WasDue(cause, tasks', place', t) {
      assert SameTask(tasks, place, tasks', place', t) || !SameTask(tasks, place, tasks', place', t);
    }
    forall t | t in place' && t in tasks' ensures !(place'[t] == SLEEPING && Due(cause, tasks'[t])) {
      assert !WasDue(cause, tasks', place', t);
    }
  }

  /** No sleeper is left that this cause should wake. */
  ghost predicate NoneDue(cause: Cause, tasks: map<TaskId, Task>, place: map<TaskId, nat>) {
    forall t | t in place && t in tasks :: !(place[t] == SLEEPING && Due(cause, tasks[t]))
  }

  /** Waking for one cause leaves nobody asleep who is due for another and was not before. */
  lemma StillNoneDue(first: Cause, second: Cause, tasks: map<TaskId, Task>, place: map<TaskId, nat>,
                     tasks': map<TaskId, Task>, place': map<TaskId, nat>)
    requires NoneDue(first, tasks, place) && AllAwoken(second, tasks, place, tasks', place')
    ensures NoneDue(first, tasks', place') && NoneDue(second, tasks', place')
  {
    AwokenFacts(second, tasks, place, tasks', place');
    forall t | t in place' && t in tasks' ensures !(place'[t] == SLEEPING && Due(first, tasks'[t])) {
      assert SameTask(tasks, place, tasks', place', t) || !SameTask(tasks, place, tasks', place', t);
    }
    forall t | t in place' && t in tasks' ensures !(place'[t] == SLEEPING && Due(second, tasks'[t])) {
      assert !WasDue(second, tasks', place', t);
    }
  }

  /** Waking leaves alone whether a task may be preempted. */
  lemma SamePreemption(cause: Cause, tasks: map<TaskId, Task>, place: map<TaskId, nat>,
                       tasks': map<TaskId, Task>, place': map<TaskId, nat>, t: TaskId)
    requires AllAwoken(cause, tasks, place, tasks', place') && t in tasks
    ensures t in tasks' && tasks'[t].premption == tasks[t].premption
  {
    assert SameTask(tasks, place, tasks', place', t) || !SameTask(tasks, place, tasks', place', t);
  }

  /** A sleeper that wakes disturbs nobody who runs. */
  lemma WakeKeeps(cause: Cause, tasks: map<TaskId, Task>, place: map<TaskId, nat>, t: TaskId, q: nat,
                  current: seq<TaskId>, boot: seq<TaskId>, idle: seq<TaskId>, lastOut: map<TaskId, Context>)
    requires t in tasks && t in place && place[t] == SLEEPING && q < SLEEPING
    requires IdleReady(tasks, place, idle)
    ensures IdleReady(tasks[t := Cleared(cause, tasks[t])], place[t := q], idle)
    ensures Running(current, tasks, place, boot) ==>
              Running(current, tasks[t := Cleared(cause, tasks[t])], place[t := q], boot)
    ensures Saved(current, tasks, place, lastOut) ==>
              Saved(current, tasks[t := Cleared(cause, tasks[t])], place[t := q], lastOut)
  {
  }

  // ----- choosing a core -----

  /** Addresses from here on belong to the kernel. */
  const KERNEL_SPACE: nat := 0xFFFF_0000_0000_0000

  /** An address of 64 bits belongs to the kernel exactly when its 16 highest bits are set. */
  lemma KernelAddress(address: nat)
    requires address < 0x1_0000_0000_0000_0000
    ensures address < KERNEL_SPACE <==> address / 0x1_0000_0000_0000 != 0xFFFF
  {
  }

  /** calcNextCore's initial count: larger queues would not be considered. */
  const MAX_COUNT: nat := 0xfffffff

  ghost function Load(contents: seq<seq<TaskId>>, p: nat, core: nat): nat
    requires |contents| == QUEUES && p < PRIORITIES
  {
    if core < CORES then |contents[RunningQueue(core, p)]| else 0
  }

  /** The first of the cores with the shortest queue; core 0 when every queue is over the count. */
  ghost predicate LeastLoaded(contents: seq<seq<TaskId>>, p: nat, core: nat)
    requires |contents| == QUEUES && p < PRIORITIES && core < CORES
  {
    if forall k | 0 <= k < CORES :: Load(contents, p, k) >= MAX_COUNT then core == 0
    else
      && (forall k | 0 <= k < CORES :: Load(contents, p, core) <= Load(contents, p, k))
      && forall k | 0 <= k < core :: Load(contents, p, core) < Load(contents, p, k)
  }

  /** The queues of the cores are the same. */
  ghost predicate SameRunning(contents: seq<seq<TaskId>>, after: seq<seq<TaskId>>) {
    |contents| == |after| == QUEUES && forall q | 0 <= q < SLEEPING :: contents[q] == after[q]
  }

  /** The sleepers make no core more or less loaded. */
  lemma SameLoads(contents: seq<seq<TaskId>>, after: seq<seq<TaskId>>, p: nat, core: nat)
    requires SameRunning(contents, after) && p < PRIORITIES && core < CORES && LeastLoaded(contents, p, core)
    ensures LeastLoaded(after, p, core)
  {
    forall k | 0 <= k < CORES ensures Load(contents, p, k) == Load(after, p, k) {}
  }

  /** Whenever some queue is shorter than 268435455 tasks, the first of the shortest wins. */
  lemma ShortestWins(contents: seq<seq<TaskId>>, p: nat, core: nat, other: nat)
    requires |contents| == QUEUES && p < PRIORITIES && core < CORES && other < CORES
    requires LeastLoaded(contents, p, core) && |contents[RunningQueue(other, p)]| < 268435455
    ensures forall k | 0 <= k < CORES :: |contents[RunningQueue(core, p)]| <= |contents[RunningQueue(k, p)]|
    ensures forall k | 0 <= k < core :: |contents[RunningQueue(core, p)]| < |contents[RunningQueue(k, p)]|
  {
    assert Load(contents, p, other) < MAX_COUNT;
    forall k | 0 <= k < CORES
      ensures |contents[RunningQueue(core, p)]| <= |contents[RunningQueue(k, p)]|
      ensures k < core ==> |contents[RunningQueue(core, p)]| < |contents[RunningQueue(k, p)]|
    {
      assert Load(contents, p, core) <= Load(contents, p, k);
      assert k < core ==> Load(contents, p, core) < Load(contents, p, k);
    }
  }

  // ----- where woken tasks go -----

  /** A task that is woken, and the core it is sent to. */
  datatype Dispatch = Dispatch(task: TaskId, core: nat)

  ghost function QueueFor(tasks: map<TaskId, Task>, w: Dispatch): (q: nat) {
    if w.task in tasks && tasks[w.task].p < PRIORITIES && w.core < CORES
    then RunningQueue(w.core, tasks[w.task].p) else SLEEPING
  }

  /** The queues after the tasks have been appended one after the other. */
  ghost function Dispatched(contents: seq<seq<TaskId>>, tasks: map<TaskId, Task>, wakes: seq<Dispatch>)
    : (r: seq<seq<TaskId>>)
    requires |contents| == QUEUES
    ensures |r| == QUEUES
  {
    if wakes == [] then contents
    else
      var before, w := Dispatched(contents, tasks, wakes[..|wakes| - 1]), wakes[|wakes| - 1];
      before[QueueFor(tasks, w) := before[QueueFor(tasks, w)] + [w.task]]
  }

  /** A task goes to its own priority on the core it is pinned to, or on the least loaded one. */
  ghost predicate SentRight(contents: seq<seq<TaskId>>, tasks: map<TaskId, Task>, w: Dispatch)
    requires |contents| == QUEUES
  {
    && w.task in tasks && tasks[w.task].p < PRIORITIES && w.core < CORES
    && match tasks[w.task].pin
       case None => LeastLoaded(contents, tasks[w.task].p, w.core)
       case Some(core) => w.core == core
  }

  /** The k-th task was sent right as the queues stood when its turn came. */
  ghost predicate SentInTurn(contents: seq<seq<TaskId>>, tasks: map<TaskId, Task>, wakes: seq<Dispatch>, k: nat)
    requires |contents| == QUEUES && k < |wakes|
  {
    SentRight(Dispatched(contents, tasks, wakes[..k]), tasks, wakes[k])
  }

  ghost predicate Moved(tasks: map<TaskId, Task>, place: map<TaskId, nat>, place': map<TaskId, nat>, w: Dispatch) {
    && w.task in place && place[w.task] == SLEEPING
    && w.task in place' && place'[w.task] == QueueFor(tasks, w)
  }

  ghost predicate Wakes(wakes: seq<Dispatch>, t: TaskId) {
    exists k :: 0 <= k < |wakes| && wakes[k].task == t
  }

  /** The sleepers that are not asleep any more have been sent off in the order of `wakes`, which is ascending. */
  ghost predicate Sent(contents: seq<seq<TaskId>>, tasks: map<TaskId, Task>, place: map<TaskId, nat>,
                       contents': seq<seq<TaskId>>, place': map<TaskId, nat>, wakes: seq<Dispatch>)
  {
    && |contents| == QUEUES
    && SameRunning(Dispatched(contents, tasks, wakes), contents')
    && (forall k | 0 <= k < |wakes| :: SentInTurn(contents, tasks, wakes, k))
    && (forall k | 0 <= k < |wakes| :: Moved(tasks, place, place', wakes[k]))
    && (forall k, l | 0 <= k < l < |wakes| :: wakes[k].task <= wakes[l].task)
    && forall t {:trigger Wakes(wakes, t)} ::
         t in place && place[t] == SLEEPING && t in place' && place'[t] != SLEEPING ==> Wakes(wakes, t)
  }

  lemma SentOneMore(contents: seq<seq<TaskId>>, tasks: map<TaskId, Task>, place: map<TaskId, nat>,
                    contents': seq<seq<TaskId>>, place': map<TaskId, nat>, wakes: seq<Dispatch>, w: Dispatch,
                    contents'': seq<seq<TaskId>>)
    requires Sent(contents, tasks, place, contents', place', wakes)
    requires |contents'| == QUEUES && SentRight(contents', tasks, w)
    requires forall k | 0 <= k < |wakes| :: wakes[k].task <= w.task
    requires w.task in place && place[w.task] == SLEEPING && w.task in place' && place'[w.task] == SLEEPING
    requires var q := QueueFor(tasks, w); SameRunning(contents'[q := contents'[q] + [w.task]], contents'')
    ensures Sent(contents, tasks, place, contents'', place'[w.task := QueueFor(tasks, w)], wakes + [w])
  {
    var more, place'' := wakes + [w], place'[w.task := QueueFor(tasks, w)];
    assert more[..|wakes|] == wakes && more[..|more| - 1] == wakes;
    forall k | 0 <= k < |more| ensures SentInTurn(contents, tasks, more, k) {
      assert k < |wakes| ==> more[..k] == wakes[..k] && SentInTurn(contents, tasks, wakes, k);
      if k == |wakes| && tasks[w.task].pin.None? {
        SameLoads(contents', Dispatched(contents, tasks, wakes), tasks[w.task].p, w.core);
      }
    }
    forall k | 0 <= k < |more| ensures Moved(tasks, place, place'', more[k]) {
      assert k < |wakes| ==> Moved(tasks, place, place', wakes[k]) && SentInTurn(contents, tasks, wakes, k);
    }
    forall t | t in place && place[t] == SLEEPING && t in place'' && place''[t] != SLEEPING ensures Wakes(more, t) {
      if t == w.task {
        assert more[|wakes|].task == t;
      } else {
        assert Wakes(wakes, t);
        var k :| 0 <= k < |wakes| && wakes[k].task == t;
        assert more[k].task == t;
      }
    }
  }

  /** Halfway through a wake-up. */
  ghost predicate Waking(cause: Cause, contents: seq<seq<TaskId>>, tasks: map<TaskId, Task>, place: map<TaskId, nat>,
                         contents': seq<seq<TaskId>>, tasks': map<TaskId, Task>, place': map<TaskId, nat>,
                         wakes: seq<Dispatch>)
  {
    && SomeAwoken(cause, tasks, place, tasks', place')
    && Sent(contents, tasks, place, contents', place', wakes)
    && forall k | 0 <= k < |wakes| :: First(cause, tasks', place', wakes[k].task)
  }

  /** No task that is due comes before t. */
  ghost predicate First(cause: Cause, tasks: map<TaskId, Task>, place: map<TaskId, nat>, t: TaskId) {
    forall u {:trigger WasDue(cause, tasks, place, u)} :: WasDue(cause, tasks, place, u) ==> t <= u
  }

  lemma StillFirst(cause: Cause, tasks: map<TaskId, Task>, place: map<TaskId, nat>, w: Dispatch, t: TaskId)
    requires First(cause, tasks, place, t) && w.task in tasks && tasks[w.task].p < PRIORITIES && w.core < CORES
    ensures First(cause, tasks[w.task := Cleared(cause, tasks[w.task])], place[w.task := QueueFor(tasks, w)], t)
  {
    var tasks', place' := tasks[w.task := Cleared(cause, tasks[w.task])], place[w.task := QueueFor(tasks, w)];
    forall u | WasDue(cause, tasks', place', u) ensures t <= u {
      assert WasDue(cause, tasks, place, u);
    }
  }

  lemma WakesOneMore(cause: Cause, contents: seq<seq<TaskId>>, tasks: map<TaskId, Task>, place: map<TaskId, nat>,
                     contents': seq<seq<TaskId>>, tasks': map<TaskId, Task>, place': map<TaskId, nat>,
                     wakes: seq<Dispatch>, w: Dispatch, contents'': seq<seq<TaskId>>)
    requires Waking(cause, contents, tasks, place, contents', tasks', place', wakes)
    requires WasDue(cause, tasks', place', w.task) && |contents'| == QUEUES && SentRight(contents', tasks', w)
    requires First(cause, tasks', place', w.task)
    requires var q := QueueFor(tasks', w); SameRunning(contents'[q := contents'[q] + [w.task]], contents'')
    ensures Waking(cause, contents, tasks, place, contents'', tasks'[w.task := Cleared(cause, tasks'[w.task])],
                   place'[w.task := QueueFor(tasks', w)], wakes + [w])
  {
    OneMoreAwoken(cause, tasks, place, tasks', place', w.task, QueueFor(tasks', w));
    assert SameTask(tasks, place, tasks', place', w.task);
    SentOneMore(contents, tasks, place, contents', place', wakes, w, contents'');
    var tasks'', place'' := tasks'[w.task := Cleared(cause, tasks'[w.task])], place'[w.task := QueueFor(tasks', w)];
    forall k | 0 <= k < |wakes + [w]| ensures First(cause, tasks'', place'', (wakes + [w])[k].task) {
      StillFirst(cause, tasks', place', w, (wakes + [w])[k].task);
    }
  }

  // ----- who wakes, field by field -----

  ghost predicate Asleep(place: map<TaskId, nat>, t: TaskId) {
    t in place && place[t] == SLEEPING
  }

  ghost predicate Stays(tasks: map<TaskId, Task>, place: map<TaskId, nat>,
                        tasks': map<TaskId, Task>, place': map<TaskId, nat>, t: TaskId)
  {
    && t in tasks && t in tasks' && tasks'[t] == tasks[t]
    && (t in place <==> t in place') && (t in place ==> place'[t] == place[t])
  }

  ghost predicate Wakened(place': map<TaskId, nat>, tasks': map<TaskId, Task>, t: TaskId, task: Task) {
    t in place' && place'[t] != SLEEPING && t in tasks' && tasks'[t] == task
  }

  /** A sleeper whose timer is set and not later than now wakes, its timer cleared; nothing else changes. */
  ghost predicate TimersWoke(now: nat, tasks: map<TaskId, Task>, place: map<TaskId, nat>,
                             tasks': map<TaskId, Task>, place': map<TaskId, nat>)
  {
    && tasks'.Keys == tasks.Keys && place'.Keys == place.Keys
    && forall t {:trigger Asleep(place, t)} | t in tasks ::
         if Asleep(place, t) && 0 < tasks[t].timer <= now then Wakened(place', tasks', t, tasks[t].(timer := 0))
         else Stays(tasks, place, tasks', place', t)
  }

  /** A sleeper that waits for a lock nobody owns wakes and waits no more; nothing else changes. */
  ghost predicate LocksWoke(ownerless: set<nat>, tasks: map<TaskId, Task>, place: map<TaskId, nat>,
                            tasks': map<TaskId, Task>, place': map<TaskId, nat>)
  {
    && tasks'.Keys == tasks.Keys && place'.Keys == place.Keys
    && forall t {:trigger Asleep(place, t)} | t in tasks ::
         if Asleep(place, t) && tasks[t].lock != None && tasks[t].lock.value in ownerless
         then Wakened(place', tasks', t, tasks[t].(lock := None))
         else Stays(tasks, place, tasks', place', t)
  }

  ghost predicate Woke(cause: Cause, tasks: map<TaskId, Task>, place: map<TaskId, nat>,
                       tasks': map<TaskId, Task>, place': map<TaskId, nat>)
  {
    match cause
    case Expired(now) => TimersWoke(now, tasks, place, tasks', place')
    case Released(ownerless) => LocksWoke(ownerless, tasks, place, tasks', place')
  }

  /** What being due and being cleared come to. */
  lemma AwokenIsWoke(cause: Cause, tasks: map<TaskId, Task>, place: map<TaskId, nat>,
                     tasks': map<TaskId, Task>, place': map<TaskId, nat>)
    requires AllAwoken(cause, tasks, place, tasks', place')
    ensures Woke(cause, tasks, place, tasks', place')
  {
    AwokenFacts(cause, tasks, place, tasks', place');
    forall t ensures t in tasks <==> t in tasks' {
      assert SameTask(tasks, place, tasks', place', t) || !SameTask(tasks, place, tasks', place', t);
    }
    forall t | t in tasks
      ensures WasDue(cause, tasks, place, t) ==> Wakened(place', tasks', t, Cleared(cause, tasks[t]))
      ensures !WasDue(cause, tasks, place, t) ==> Stays(tasks, place, tasks', place', t)
    {
      assert SameTask(tasks, place, tasks', place', t) || !SameTask(tasks, place, tasks', place', t);
    }
  }

  /** Both causes, one after the other: a task woken by its timer does not lose its lock. */
  ghost predicate BothWoke(now: nat, ownerless: set<nat>, tasks: map<TaskId, Task>, place: map<TaskId, nat>,
                           tasks': map<TaskId, Task>, place': map<TaskId, nat>)
  {
    && tasks'.Keys == tasks.Keys && place'.Keys == place.Keys
    && forall t {:trigger Asleep(place, t)} | t in tasks ::
         if Asleep(place, t) && 0 < tasks[t].timer <= now then Wakened(place', tasks', t, tasks[t].(timer := 0))
         else if Asleep(place, t) && tasks[t].lock != None && tasks[t].lock.value in ownerless
         then Wakened(place', tasks', t, tasks[t].(lock := None))
         else Stays(tasks, place, tasks', place', t)
  }

  lemma OneAfterTheOther(now: nat, ownerless: set<nat>, tasks: map<TaskId, Task>, place: map<TaskId, nat>,
                         tasks1: map<TaskId, Task>, place1: map<TaskId, nat>,
                         tasks2: map<TaskId, Task>, place2: map<TaskId, nat>)
    requires TimersWoke(now, tasks, place, tasks1, place1) && LocksWoke(ownerless, tasks1, place1, tasks2, place2)
    ensures BothWoke(now, ownerless, tasks, place, tasks2, place2)
  {
    forall t | t in tasks
      ensures if Asleep(place, t) && 0 < tasks[t].timer <= now then Wakened(place2, tasks2, t, tasks[t].(timer := 0))
              else if Asleep(place, t) && tasks[t].lock != None && tasks[t].lock.value in ownerless
              then Wakened(place2, tasks2, t, tasks[t].(lock := None))
              else Stays(tasks, place, tasks2, place2, t)
    {
      assert Asleep(place, t) || !Asleep(place, t);
      assert Asleep(place1, t) || !Asleep(place1, t);
    }
  }

  // ----- choosing a task -----

  /** The task at place `pick`, counted round, of the core's first queue that is not empty. */
  ghost predicate Picked(contents: seq<seq<TaskId>>, c: nat, pick: nat, next: TaskId)
    requires |contents| == QUEUES && c < CORES
  {
    exists p | 0 <= p < PRIORITIES :: PickedAt(contents, c, pick, next, p)
  }

  ghost predicate PickedAt(contents: seq<seq<TaskId>>, c: nat, pick: nat, next: TaskId, p: nat)
    requires |contents| == QUEUES && c < CORES && p < PRIORITIES
  {
    var queue := contents[RunningQueue(c, p)];
    && (forall k | 0 <= k < p :: Load(contents, k, c) == 0)
    && |queue| > 0 && next == queue[pick % |queue|]
  }

  lemma PickedHere(contents: seq<seq<TaskId>>, c: nat, pick: nat, next: TaskId, p: nat)
    requires |contents| == QUEUES && c < CORES && p < PRIORITIES && |contents[RunningQueue(c, p)]| > 0
    requires next == contents[RunningQueue(c, p)][pick % |contents[RunningQueue(c, p)]|]
    requires forall k | 0 <= k < p :: Load(contents, k, c) == 0
    ensures Picked(contents, c, pick, next)
  {
    assert PickedAt(contents, c, pick, next, p);
  }

  lemma PickedOnCore(contents: seq<seq<TaskId>>, tasks: map<TaskId, Task>, place: map<TaskId, nat>,
                     c: nat, pick: nat, next: TaskId)
    requires Placed(contents, tasks, place) && c < CORES && Picked(contents, c, pick, next)
    ensures next in tasks && OnCore(place, next, c)
  {
    var p :| 0 <= p < PRIORITIES && PickedAt(contents, c, pick, next, p);
    InItsQueue(contents, tasks, place, RunningQueue(c, p), next);
  }

  /** As Running, with nothing said about what core c runs. */
  ghost predicate RunningBut(current: seq<TaskId>, tasks: map<TaskId, Task>, place: map<TaskId, nat>,
                             boot: seq<TaskId>, c: nat)
  {
    && |current| == |boot| == CORES && c < CORES && current[c] in tasks
    && (forall d | 0 <= d < CORES :: boot[d] in tasks && boot[d] !in place && tasks[boot[d]].kind == BootCode)
    && (forall d, e | 0 <= d < e < CORES :: boot[d] != boot[e])
    && (forall d | 0 <= d < CORES && d != c ::
          current[d] in tasks && (current[d] == boot[d] || OnCore(place, current[d], d)))
  }

  /** A worker that falls asleep on core c leaves everything in order but what that core runs. */
  lemma SleepKeeps(current: seq<TaskId>, tasks: map<TaskId, Task>, place: map<TaskId, nat>, boot: seq<TaskId>,
                   idle: seq<TaskId>, lastOut: map<TaskId, Context>, c: nat)
    requires Running(current, tasks, place, boot) && IdleReady(tasks, place, idle)
    requires Saved(current, tasks, place, lastOut) && c < CORES && tasks[current[c]].kind == Worker
    ensures RunningBut(current, tasks, place[current[c] := SLEEPING], boot, c)
    ensures IdleReady(tasks, place[current[c] := SLEEPING], idle)
    ensures Saved(current, tasks, place[current[c] := SLEEPING], lastOut)
  {
    var place' := place[current[c] := SLEEPING];
    forall d | 0 <= d < CORES && d != c ensures current[d] == boot[d] || OnCore(place', current[d], d) {
      OneCoreEach(current, tasks, place, boot, c, d);
    }
    assert current[c] != boot[c] && OnCore(place, current[c], c);
  }

  /** A switch on core c keeps what runs and what is saved in order. */
  lemma SwitchKeeps(current: seq<TaskId>, tasks: map<TaskId, Task>, place: map<TaskId, nat>,
                    boot: seq<TaskId>, lastOut: map<TaskId, Context>, c: nat, next: TaskId,
                    frame: Context, saved: Context)
    requires RunningBut(current, tasks, place, boot, c) && Saved(current, tasks, place, lastOut)
    requires next in tasks && OnCore(place, next, c) && SameSwitched(saved, frame)
    ensures var out := current[c];
            var tasks' := tasks[out := tasks[out].(context := saved)];
            && Running(current[c := next], tasks', place, boot)
            && Saved(current[c := next], tasks', place, lastOut[out := frame])
  {
    var out := current[c];
    var tasks' := tasks[out := tasks[out].(context := saved)];
    var lastOut', current' := lastOut[out := frame], current[c := next];
    forall t | t in place && t in tasks'
      ensures t in lastOut' && (t in current' || SameSwitched(tasks'[t].context, lastOut'[t]))
    {
      if t in current && t != out {
        var d :| 0 <= d < CORES && current[d] == t;
        assert current'[d] == t;
      }
    }
  }

  // ----- the steps as relations -----

  /** What the scheduler holds; lastOut are the registers a task was last switched out with. */
  datatype View = View(contents: seq<seq<TaskId>>, tasks: map<TaskId, Task>, place: map<TaskId, nat>,
                       current: seq<TaskId>, regs: seq<Context>, lastOut: map<TaskId, Context>)

  /** A wake-up: who wakes, and where to. */
  ghost predicate Woken(cause: Cause, v: View, v': View) {
    && Woke(cause, v.tasks, v.place, v'.tasks, v'.place)
    && (exists wakes :: Sent(v.contents, v.tasks, v.place, v'.contents, v'.place, wakes))
    && v'.current == v.current && v'.regs == v.regs && v'.lastOut == v.lastOut
  }

  /**
   A switch: the registers of the core are saved with the task that ran, and the core gets those saved
   with the picked task, or keeps its own if that is the same task. No other core is touched.
   */
  ghost predicate Switched(c: nat, pick: nat, v: View, v': View) {
    && |v.contents| == QUEUES && |v.current| == |v.regs| == |v'.current| == |v'.regs| == CORES && c < CORES
    && var out, next := v.current[c], v'.current[c];
       && Picked(v.contents, c, pick, next)
       && out in v.tasks && out in v'.tasks && next in v.tasks
       && v'.contents == v.contents && v'.place == v.place
       && v'.current == v.current[c := next]
       && v'.lastOut == v.lastOut[out := v.regs[c]]
       && v'.tasks == v.tasks[out := v.tasks[out].(context := v'.tasks[out].context)]
       && SameSwitched(v'.tasks[out].context, v.regs[c])
       && v'.tasks[out].context.far == v.tasks[out].context.far
       && v'.regs == v.regs[c := v'.regs[c]]
       && SameSwitched(v'.regs[c], if next == out then v.regs[c] else v.tasks[next].context)
       && v'.regs[c].far == v.regs[c].far
  }

  /** reschedule: a switch unless the running task forbids it. */
  ghost predicate Rescheduled(c: nat, pick: nat, v: View, v': View) {
    && c < |v.current| && v.current[c] in v.tasks
    && if v.tasks[v.current[c]].premption == 0 then Switched(c, pick, v, v') else v' == v
  }

  /** The running task has set its own timer, the lock it waits for and its preemption count. */
  ghost predicate Adjusted(c: nat, timer: nat, lock: Option<nat>, premption: nat, v: View, v': View) {
    && c < |v.current| && v.current[c] in v.tasks
    && var t := v.current[c];
       v' == v.(tasks := v.tasks[t := v.tasks[t].(timer := timer, lock := lock, premption := premption)])
  }

  /** A new worker waits at the end of a queue of core c, pinned to it or not. */
  ghost predicate Created(t: TaskId, entry: nat, stack: nat, memory: Task, p: nat, pin: bool, c: nat, pid: nat,
                          v: View, v': View)
  {
    && |v.contents| == QUEUES && c < CORES && p < PRIORITIES && t !in v.tasks && t in v'.tasks
    && var q, task := RunningQueue(c, p), v'.tasks[t];
       && task == Task(Worker, task.context, p, if pin then Some(c) else None, 0, memory.lock, 0)
       && StartsAt(task.context, entry, stack, pid, memory.context)
       && v' == v.(contents := v.contents[q := v.contents[q] + [t]], tasks := v.tasks[t := task],
                   place := v.place[t := q], lastOut := v.lastOut[t := task.context])
  }

  /** After a switch the core has the registers that its task was last switched out with. */
  ghost predicate Resumed(c: nat, v: View, v': View) {
    && c < |v.current| && c < |v'.current| && c < |v.regs| && c < |v'.regs|
    && v'.current[c] in v.lastOut
    && SameSwitched(v'.regs[c], if v'.current[c] == v.current[c] then v.regs[c] else v.lastOut[v'.current[c]])
  }

  lemma ResumedSince(c: nat, v: View, awake: View, v': View)
    requires awake.current == v.current && awake.regs == v.regs && awake.lastOut == v.lastOut
    ensures Resumed(c, awake, v') ==> Resumed(c, v, v')
  {
  }

  /** Sorting a queue, taking a task out and appending it to the sleepers. */
  lemma LeftForSleep(contents: seq<seq<TaskId>>, sorted: seq<seq<TaskId>>, after: seq<seq<TaskId>>,
                     q: nat, index: nat, t: TaskId)
    requires |contents| == |sorted| == QUEUES && q < SLEEPING
    requires sorted == contents[q := sorted[q]] && multiset(sorted[q]) == multiset(contents[q])
    requires index < |sorted[q]| && sorted[q][index] == t
    requires after == sorted[q := Without(sorted[q], index)][SLEEPING := sorted[SLEEPING] + [t]]
    ensures after == contents[q := after[q]][SLEEPING := contents[SLEEPING] + [t]]
    ensures multiset(after[q]) == multiset(contents[q]) - multiset{t}
  {
    WithoutSorted(sorted[q], index);
  }

  /** A switch makes nobody due. */
  lemma StillAsleep(cause: Cause, c: nat, pick: nat, v: View, v': View)
    requires NoneDue(cause, v.tasks, v.place) && Rescheduled(c, pick, v, v')
    ensures NoneDue(cause, v'.tasks, v'.place)
  {
    forall t | t in v'.place && t in v'.tasks ensures !(v'.place[t] == SLEEPING && Due(cause, v'.tasks[t])) {
      assert t in v.tasks ==> !(v.place[t] == SLEEPING && Due(cause, v.tasks[t]));
    }
  }

  /** The running task has moved from its queue to the end of the sleeping queue. */
  ghost predicate FellAsleep(c: nat, v: View, v': View) {
    && |v.contents| == |v'.contents| == QUEUES && c < |v.current| && c < CORES
    && v.current[c] in v.tasks && v.tasks[v.current[c]].p < PRIORITIES
    && var t := v.current[c];
       var q := RunningQueue(c, v.tasks[t].p);
       && v' == v.(contents := v'.contents, place := v.place[t := SLEEPING])
       && v'.contents == v.contents[q := v'.contents[q]][SLEEPING := v.contents[SLEEPING] + [t]]
       && multiset(v'.contents[q]) == multiset(v.contents[q]) - multiset{t}
  }
}
