/** Whole runs of the scheduler: any sequence of handler steps, on any of the cores. */
module SchedulerRuns {
  import opened Queues
  import opened SchedulerState
  import opened SchedulerSteps
  import opened Scheduler

  datatype Event =
    | Tick(now: nat, pick: nat)
    | Switch(core: nat, pick: nat)
    | Sleep(core: nat, pick: nat)
    | Wake(now: nat, ownerless: set<nat>)
    | Compute(core: nat, frame: Context)
    | Create(task: TaskId, entry: nat, stack: nat, memory: Task, p: nat, pin: bool, core: nat)
    | Set(core: nat, timer: nat, lock: Option<nat>, premption: nat)

  /** What holds in every reachable state, in the terms of the queues and the cores. */
  lemma Safety(s: Scheduler, t: TaskId, c: nat, d: nat)
    requires s.Valid() && t in s.place && c < CORES && d < CORES
    ensures t in s.tasks && |s.queues.contents| == QUEUES
    ensures exists q :: 0 <= q < QUEUES && t in s.queues.contents[q] && HomeOk(s.tasks[t], q)
    ensures forall q, r | 0 <= q < r < QUEUES :: !(t in s.queues.contents[q] && t in s.queues.contents[r])
    ensures |s.current| == |s.boot| == |s.idle| == CORES
    ensures s.current[c] == s.boot[c] || (s.current[c] in s.tasks && s.tasks[s.current[c]].p < PRIORITIES
              && s.current[c] in s.queues.contents[RunningQueue(c, s.tasks[s.current[c]].p)])
    ensures c != d ==> s.current[c] != s.current[d]
    ensures s.idle[c] in s.queues.contents[RunningQueue(c, PRIORITIES - 1)]
    ensures t in s.lastOut && (t in s.current || SameSwitched(s.tasks[t].context, s.lastOut[t]))
  {
    var contents, tasks, place := s.queues.contents, s.tasks, s.place;
    Waiting(contents, tasks, place, t);
    ExactlyOneQueue(contents, tasks, place, t, place[t]);
    Waiting(contents, tasks, place, s.idle[c]);
    if s.current[c] != s.boot[c] {
      Waiting(contents, tasks, place, s.current[c]);
      assert HomeOk(tasks[s.current[c]], place[s.current[c]]);
    }
    if c != d {
      OneCoreEach(s.current, tasks, place, s.boot, c, d);
    }
  }

  /**
   Whether an event can happen in the state at all: there are four cores; only a task that is neither
   a boot task nor idle goes to sleep, and only while it may be preempted.
   */
  predicate Possible(current: seq<TaskId>, tasks: map<TaskId, Task>, e: Event) {
    && ((e.Switch? || e.Sleep? || e.Compute? || e.Set? || e.Create?) ==> e.core < CORES)
    && (e.Sleep? ==>
        && e.core < |current| && current[e.core] in tasks
        && tasks[current[e.core]].kind == Worker && tasks[current[e.core]].premption == 0)
    && (e.Create? ==> e.task !in tasks && e.p < PRIORITIES)
  }

  /** What each event does. */
  ghost predicate StepOk(e: Event, v: View, v': View) {
    match e
    case Tick(now, pick) => exists awake :: Woken(Expired(now), v, awake) && Rescheduled(0, pick, awake, v')
    case Switch(c, pick) => Rescheduled(c, pick, v, v')
    case Sleep(c, pick) => exists asleep :: FellAsleep(c, v, asleep) && Rescheduled(c, pick, asleep, v')
    case Wake(now, ownerless) => exists first :: Woken(Expired(now), v, first) && Woken(Released(ownerless), first, v')
    case Compute(c, frame) => c < |v.regs| && v' == v.(regs := v.regs[c := frame])
    case Create(t, entry, stack, memory, p, pin, c) =>
      exists pid :: Created(t, entry, stack, memory, p, pin, c, pid, v, v')
    case Set(c, timer, lock, premption) => Adjusted(c, timer, lock, premption, v, v')
  }

  method Step(s: Scheduler, e: Event)
    requires s.Valid() && Possible(s.current, s.tasks, e)
    modifies s, s.queues, s.queues.repr
    ensures s.Valid() && fresh(s.queues.repr - old(s.queues.repr))
    ensures StepOk(e, old(s.Now()), s.Now())
    ensures forall t :: t in s.place <==> t in old(s.place) || (e.Create? && t == e.task)
    ensures s.boot == old(s.boot) && s.idle == old(s.idle)
  {
    ghost var v := s.Now();
    WorkerWaits(s, e);
    match e {
      case Tick(now, pick) => var halted, told, awake := s.TimerIrq(now, pick);
      case Switch(c, pick) => var halted := s.Reschedule(c, pick);
      case Sleep(c, pick) => var halted, asleep := s.SleepSgi(c, pick);
      case Wake(now, ownerless) => ghost var first := s.WakeAll(now, ownerless);
      case Compute(c, frame) => s.Execute(c, frame);
      case Create(t, entry, stack, memory, p, pin, c) => s.CreateTask(t, entry, stack, memory, p, pin, c);
      case Set(c, timer, lock, premption) => s.Adjust(c, timer, lock, premption);
    }
    NobodyLost(e, v, s.Now());
  }

  lemma WorkerWaits(s: Scheduler, e: Event)
    requires s.Valid() && Possible(s.current, s.tasks, e)
    ensures e.Sleep? ==> s.current[e.core] in s.place
  {
    assert e.Sleep? ==> s.current[e.core] != s.boot[e.core];
  }

  lemma NobodyLost(e: Event, v: View, v': View)
    requires StepOk(e, v, v') && (e.Sleep? ==> e.core < |v.current| && v.current[e.core] in v.place)
    ensures forall t :: t in v'.place <==> t in v.place || (e.Create? && t == e.task)
  {
    match e {
      case Tick(now, pick) =>
        var awake :| Woken(Expired(now), v, awake) && Rescheduled(0, pick, awake, v');
        assert awake.place.Keys == v.place.Keys;
      case Wake(now, ownerless) =>
        var first :| Woken(Expired(now), v, first) && Woken(Released(ownerless), first, v');
        assert first.place.Keys == v.place.Keys && v'.place.Keys == v.place.Keys;
      case _ =>
    }
  }

  /** The states between the events; an event that cannot happen in a state is passed over. */
  ghost predicate Follows(history: seq<View>, events: seq<Event>) {
    && |history| == |events| + 1
    && (forall n | 0 <= n <= |events| :: FourCores(history[n]))
    && forall n | 0 <= n < |events| :: Follow(history, events, n)
  }

  ghost predicate Follow(history: seq<View>, events: seq<Event>, n: nat)
    requires |history| == |events| + 1 && n < |events|
  {
    var v, v' := history[n], history[n + 1];
    if Possible(v.current, v.tasks, events[n]) then StepOk(events[n], v, v') else v' == v
  }

  ghost predicate FourCores(v: View) {
    |v.current| == |v.regs| == CORES
  }

  /** Any run of events keeps the order, and goes from state to state as the events say. */
  method Run(s: Scheduler, events: seq<Event>) returns (ghost history: seq<View>)
    requires s.Valid()
    modifies s, s.queues, s.queues.repr
    ensures s.Valid()
    ensures Follows(history, events) && history[0] == old(s.Now()) && history[|events|] == s.Now()
    ensures forall t :: t in old(s.place) ==> t in s.place
    ensures s.boot == old(s.boot) && s.idle == old(s.idle)
  {
    history := [s.Now()];
    for n := 0 to |events|
      invariant s.Valid() && fresh(s.queues.repr - old(s.queues.repr))
      invariant Follows(history, events[..n]) && history[0] == old(s.Now()) && history[n] == s.Now()
      invariant forall t :: t in old(s.place) ==> t in s.place
      invariant s.boot == old(s.boot) && s.idle == old(s.idle)
    {
      Advance(s, events[n]);
      FollowsOn(history, events[..n], events[n], s.Now());
      assert events[..n] + [events[n]] == events[..n + 1];
      history := history + [s.Now()];
    }
    assert events[..|events|] == events;
  }

  /** An event that cannot happen is passed over. */
  method Advance(s: Scheduler, e: Event)
    requires s.Valid()
    modifies s, s.queues, s.queues.repr
    ensures s.Valid() && fresh(s.queues.repr - old(s.queues.repr)) && FourCores(s.Now())
    ensures if old(Possible(s.current, s.tasks, e)) then StepOk(e, old(s.Now()), s.Now()) else s.Now() == old(s.Now())
    ensures forall t | t in old(s.place) :: t in s.place
    ensures s.boot == old(s.boot) && s.idle == old(s.idle)
  {
    if Possible(s.current, s.tasks, e) {
      Step(s, e);
    }
  }

  lemma FollowsOn(history: seq<View>, events: seq<Event>, e: Event, v: View)
    requires Follows(history, events) && FourCores(v)
    requires var last := history[|events|];
             if Possible(last.current, last.tasks, e) then StepOk(e, last, v) else v == last
    ensures Follows(history + [v], events + [e])
  {
    forall n | 0 <= n <= |events| + 1 ensures FourCores((history + [v])[n]) {
      assert n <= |events| ==> FourCores(history[n]);
    }
    forall n | 0 <= n < |events| + 1 ensures Follow(history + [v], events + [e], n) {
      assert n < |events| ==> Follow(history, events, n);
    }
  }

  // ----- a task goes on where it left off -----

  /** The registers saved with a task that does not run stay as they are. */
  lemma SavedStays(e: Event, v: View, v': View, t: TaskId)
    requires StepOk(e, v, v') && t in v.tasks && t !in v.current
    ensures t in v'.tasks && v'.tasks[t].context == v.tasks[t].context
  {
    match e {
      case Tick(now, pick) =>
        var awake :| Woken(Expired(now), v, awake) && Rescheduled(0, pick, awake, v');
        WokenKeepsContext(Expired(now), v, awake, t);
      case Wake(now, ownerless) =>
        var first :| Woken(Expired(now), v, first) && Woken(Released(ownerless), first, v');
        WokenKeepsContext(Expired(now), v, first, t);
        WokenKeepsContext(Released(ownerless), first, v', t);
      case _ =>
    }
  }

  lemma WokenKeepsContext(cause: Cause, v: View, v': View, t: TaskId)
    requires Woken(cause, v, v') && t in v.tasks
    ensures t in v'.tasks && v'.tasks[t].context == v.tasks[t].context
  {
    assert Asleep(v.place, t) || !Asleep(v.place, t);
  }

  /** A task leaves a core only by a switch there, which saves the registers of the core with it. */
  lemma LeavesSaved(e: Event, v: View, v': View, c: nat)
    requires StepOk(e, v, v') && c < |v.current| == |v.regs| && |v'.current| == |v.current|
    requires v'.current[c] != v.current[c]
    ensures v.current[c] in v'.tasks && SameSwitched(v'.tasks[v.current[c]].context, v.regs[c])
  {
    match e {
      case Tick(now, pick) =>
        var awake :| Woken(Expired(now), v, awake) && Rescheduled(0, pick, awake, v');
      case Sleep(d, pick) =>
        var asleep :| FellAsleep(d, v, asleep) && Rescheduled(d, pick, asleep, v');
      case _ =>
    }
  }

  /** A task comes to a core only by a switch there, which gives the core the registers saved with it. */
  lemma ComesRestored(e: Event, v: View, v': View, c: nat)
    requires StepOk(e, v, v') && c < |v'.current| == |v.current| == |v'.regs|
    requires v'.current[c] !in v.current
    ensures v'.current[c] in v.tasks && SameSwitched(v'.regs[c], v.tasks[v'.current[c]].context)
  {
    match e {
      case Tick(now, pick) =>
        var awake :| Woken(Expired(now), v, awake) && Rescheduled(0, pick, awake, v');
        assert awake.tasks.Keys == v.tasks.Keys;
        assert v'.current[c] in v.tasks;
        WokenKeepsContext(Expired(now), v, awake, v'.current[c]);
      case Sleep(d, pick) =>
        var asleep :| FellAsleep(d, v, asleep) && Rescheduled(d, pick, asleep, v');
      case _ =>
    }
  }

  /** Task t does not run in the states from m to n. */
  ghost predicate Idles(history: seq<View>, t: TaskId, m: nat, n: nat) {
    forall k | m <= k <= n && k < |history| :: t !in history[k].current
  }

  lemma {:induction false} SavedAllAlong(history: seq<View>, events: seq<Event>, t: TaskId, m: nat, n: nat)
    requires Follows(history, events) && m <= n <= |events|
    requires t in history[m].tasks && Idles(history, t, m, n)
    ensures t in history[n].tasks && history[n].tasks[t].context == history[m].tasks[t].context
    decreases n
  {
    if m < n {
      SavedAllAlong(history, events, t, m, n - 1);
      assert Follow(history, events, n - 1);
      if Possible(history[n - 1].current, history[n - 1].tasks, events[n - 1]) {
        SavedStays(events[n - 1], history[n - 1], history[n], t);
      }
    }
  }

  /**
   In every run: a task that runs on core c and is switched out, and later runs again for the first
   time, on whatever core d, has there the registers that core c had when it was switched out.
   */
  lemma ResumesWhereItLeft(history: seq<View>, events: seq<Event>, t: TaskId, m: nat, n: nat, c: nat, d: nat)
    requires Follows(history, events) && m < n < |events| && c < CORES && d < CORES
    requires FourCores(history[m]) && FourCores(history[n + 1])
    requires history[m].current[c] == t && Idles(history, t, m + 1, n) && history[n + 1].current[d] == t
    ensures SameSwitched(history[n + 1].regs[d], history[m].regs[c])
  {
    assert t !in history[m + 1].current && t !in history[n].current;
    LeavesInRun(history, events, m, c);
    SavedAllAlong(history, events, t, m + 1, n);
    ComesInRun(history, events, n, d);
  }

  lemma LeavesInRun(history: seq<View>, events: seq<Event>, m: nat, c: nat)
    requires Follows(history, events) && m < |events| && c < CORES
    requires FourCores(history[m]) && FourCores(history[m + 1])
    requires history[m + 1].current[c] != history[m].current[c]
    ensures var t := history[m].current[c];
            t in history[m + 1].tasks && SameSwitched(history[m + 1].tasks[t].context, history[m].regs[c])
  {
    assert Follow(history, events, m);
    LeavesSaved(events[m], history[m], history[m + 1], c);
  }

  lemma ComesInRun(history: seq<View>, events: seq<Event>, n: nat, d: nat)
    requires Follows(history, events) && n < |events| && d < CORES
    requires FourCores(history[n]) && FourCores(history[n + 1])
    requires history[n + 1].current[d] !in history[n].current
    ensures var t := history[n + 1].current[d];
            t in history[n].tasks && SameSwitched(history[n + 1].regs[d], history[n].tasks[t].context)
  {
    assert Follow(history, events, n);
    ComesRestored(events[n], history[n], history[n + 1], d);
  }

  // ----- what a handler that is not one atomic step can do -----

  /** Nobody but t is asleep or in the first queue of a core. */
  ghost predicate Alone(place: map<TaskId, nat>, t: TaskId) {
    forall u | u in place && u != t :: place[u] != SLEEPING && place[u] % PRIORITIES != 0
  }

  /** The only task of a core's first queue is picked. */
  lemma PicksIt(contents: seq<seq<TaskId>>, tasks: map<TaskId, Task>, place: map<TaskId, nat>,
                c: nat, next: TaskId, t: TaskId)
    requires Placed(contents, tasks, place) && c < CORES && Picked(contents, c, 0, next)
    requires t in place && place[t] == RunningQueue(c, 0) && Alone(place, t)
    ensures next == t
  {
    Waiting(contents, tasks, place, t);
    assert Load(contents, 0, c) > 0;
    var p :| 0 <= p < PRIORITIES && PickedAt(contents, c, 0, next, p);
    assert p == 0;
    InItsQueue(contents, tasks, place, RunningQueue(c, 0), next);
  }

  /** With all first queues empty the first core is chosen. */
  lemma GoesToCoreZero(contents: seq<seq<TaskId>>, tasks: map<TaskId, Task>, place: map<TaskId, nat>,
                       core: nat, t: TaskId)
    requires Placed(contents, tasks, place) && core < CORES && LeastLoaded(contents, 0, core)
    requires t in place && place[t] == SLEEPING && Alone(place, t)
    ensures core == 0
  {
    forall k | 0 <= k < CORES ensures Load(contents, 0, k) == 0 {
      var q := RunningQueue(k, 0);
      if |contents[q]| > 0 {
        InItsQueue(contents, tasks, place, q, contents[q][0]);
      }
    }
    assert Load(contents, 0, 0) == Load(contents, 0, core);
  }

  /** A new task runs on core 1, with no other worker around, and has set its timer. */
  method NewTaskRuns(bootTasks: seq<TaskId>, idleTasks: seq<TaskId>, boots: Task, idles: Task, frames: seq<Context>,
                     t: TaskId, entry: nat, stack: nat, memory: Task, timer: nat, frame: Context)
    returns (s: Scheduler)
    requires |bootTasks| == |idleTasks| == |frames| == CORES
    requires forall c, d | 0 <= c < d < CORES :: bootTasks[c] != bootTasks[d] && idleTasks[c] != idleTasks[d]
    requires forall c, d | 0 <= c < CORES && 0 <= d < CORES :: bootTasks[c] != idleTasks[d]
    requires idles.p == PRIORITIES - 1 && idles.pin.None? && idles.kind == IdleCode
    requires boots.kind == BootCode && boots.premption == 0
    requires t !in bootTasks && t !in idleTasks
    ensures fresh(s) && fresh(s.queues) && fresh(s.queues.repr) && s.Valid()
    ensures s.current[1] == t && s.regs[1] == frame && s.Preemptable(0)
    ensures t in s.place && Alone(s.place, t)
    ensures var task := s.tasks[t];
            task.kind == Worker && task.p == 0 && task.pin.None? && task.timer == timer && task.context.elr == entry
  {
    s := new Scheduler(bootTasks, idleTasks, boots, idles, frames);
    IdleAlone(s, t);
    assert s.tasks[bootTasks[0]] == boots && s.tasks[bootTasks[1]] == boots;
    s.CreateTask(t, entry, stack, memory, 0, false, 1);
    FirstTurn(s, t, timer, frame);
  }

  /** The only worker, which waits for core 1, gets it, sets its timer and computes. */
  method FirstTurn(s: Scheduler, t: TaskId, timer: nat, frame: Context)
    requires s.Valid() && s.Preemptable(0) && s.Preemptable(1) && s.current[0] != t && s.current[1] != t
    requires t in s.place && s.place[t] == RunningQueue(1, 0) && Alone(s.place, t)
    modifies s`current, s`tasks, s`regs, s`lastOut
    ensures s.Valid() && s.current[1] == t && s.regs[1] == frame && s.Preemptable(0)
    ensures t in old(s.tasks)
    ensures s.tasks[t] == old(s.tasks[t]).(timer := timer, lock := None, premption := 0)
  {
    var halted := s.Reschedule(1, 0);
    PicksIt(s.queues.contents, s.tasks, s.place, 1, s.current[1], t);
    s.Adjust(1, timer, None, 0);
    s.Execute(1, frame);
  }

  lemma IdleAlone(s: Scheduler, t: TaskId)
    requires s.Valid() && forall u :: u in s.place <==> u in s.idle
    ensures Alone(s.place, t)
  {
    forall u | u in s.place ensures s.place[u] != SLEEPING && s.place[u] % PRIORITIES != 0 {
      var d :| 0 <= d < CORES && s.idle[d] == u;
      assert s.place[s.idle[d]] == RunningQueue(d, PRIORITIES - 1);
    }
  }

  /** The only task sent off went to the least loaded core. */
  lemma OnlyWake(contents: seq<seq<TaskId>>, tasks: map<TaskId, Task>, place: map<TaskId, nat>,
                 contents': seq<seq<TaskId>>, place': map<TaskId, nat>, wakes: seq<Dispatch>, t: TaskId)
    requires Sent(contents, tasks, place, contents', place', wakes) && Alone(place, t)
    requires t in tasks && tasks[t].pin.None? && Asleep(place, t) && t in place' && place'[t] != SLEEPING
    ensures tasks[t].p < PRIORITIES && place'[t] / PRIORITIES < CORES
    ensures place'[t] < SLEEPING && place'[t] % PRIORITIES == tasks[t].p
    ensures LeastLoaded(contents, tasks[t].p, place'[t] / PRIORITIES)
  {
    assert Wakes(wakes, t);
    assert SentInTurn(contents, tasks, wakes, 0) && Moved(tasks, place, place', wakes[0]);
    assert wakes[..0] == [];
  }

  /** The only sleeper is due: it goes to core 0. */
  method WakeAlone(s: Scheduler, t: TaskId, now: nat)
    requires s.Queued() && WasDue(Expired(now), s.tasks, s.place, t) && Alone(s.place, t)
    requires s.tasks[t].p == 0 && s.tasks[t].pin.None?
    modifies s`tasks, s`place, s.queues, s.queues.repr
    ensures s.Queued() && t in s.place && s.place[t] == RunningQueue(0, 0) && Alone(s.place, t)
    ensures s.tasks == old(s.tasks)[t := old(s.tasks[t]).(timer := 0)]
  {
    ghost var contents, tasks, place := s.queues.contents, s.tasks, s.place;
    ghost var wakes := s.WakeUp(Expired(now));
    OnlyItWoke(Expired(now), tasks, place, s.tasks, s.place, t);
    OnlyWake(contents, tasks, place, s.queues.contents, s.place, wakes, t);
    GoesToCoreZero(contents, tasks, place, s.place[t] / PRIORITIES, t);
    assert HomeOk(s.tasks[t], s.place[t]);
  }

  lemma OnlyItWoke(cause: Cause, tasks: map<TaskId, Task>, place: map<TaskId, nat>,
                   tasks': map<TaskId, Task>, place': map<TaskId, nat>, t: TaskId)
    requires AllAwoken(cause, tasks, place, tasks', place') && WasDue(cause, tasks, place, t) && Alone(place, t)
    ensures tasks' == tasks[t := Cleared(cause, tasks[t])] && Alone(place', t)
    ensures t in place' && place'[t] != SLEEPING
  {
    forall u | u != t
      ensures (u in tasks <==> u in tasks') && (u in tasks ==> tasks[u] == tasks'[u])
      ensures (u in place <==> u in place') && (u in place ==> place[u] == place'[u])
    {
      assert !WasDue(cause, tasks, place, u) && SameTask(tasks, place, tasks', place', u);
    }
    assert SameTask(tasks, place, tasks', place', t) || Awoken(cause, tasks, place, tasks', place', t);
  }

  /**
   The task on core 1 asks to sleep. Its handler has put it among the sleepers, but has not yet saved
   its registers, when the timer interrupt on core 0 wakes it and switches to it: two cores run it, and
   core 0 has it start over from its entry point.
   */
  method RunsTwice(s: Scheduler, t: TaskId, now: nat)
    requires s.Valid() && s.current[1] == t && s.Preemptable(0)
    requires t in s.place && Alone(s.place, t)
    requires var task := s.tasks[t];
             task.kind == Worker && task.p == 0 && task.pin.None? && 0 < task.timer <= now
    modifies s, s.queues, s.queues.repr
    ensures s.Queued() && s.current[0] == s.current[1] == t && !s.Valid()
    ensures s.regs[1] == old(s.regs[1]) && SameSwitched(s.regs[0], old(s.tasks[t].context))
  {
    s.FallAsleep(1);
    WakeAlone(s, t, now);
    var halted := s.Reschedule(0, 0);
    PicksIt(s.queues.contents, s.tasks, s.place, 0, s.current[0], t);
    if s.Valid() {
      OneCoreEach(s.current, s.tasks, s.place, s.boot, 0, 1);
    }
  }

  /** Such a run from the start of the kernel, whatever the task has computed on core 1 so far. */
  method StartedAndRunsTwice(bootTasks: seq<TaskId>, idleTasks: seq<TaskId>, boots: Task, idles: Task,
                             frames: seq<Context>, t: TaskId, entry: nat, stack: nat, memory: Task, frame: Context)
    returns (s: Scheduler)
    requires |bootTasks| == |idleTasks| == |frames| == CORES
    requires forall c, d | 0 <= c < d < CORES :: bootTasks[c] != bootTasks[d] && idleTasks[c] != idleTasks[d]
    requires forall c, d | 0 <= c < CORES && 0 <= d < CORES :: bootTasks[c] != idleTasks[d]
    requires idles.p == PRIORITIES - 1 && idles.pin.None? && idles.kind == IdleCode
    requires boots.kind == BootCode && boots.premption == 0
    requires t !in bootTasks && t !in idleTasks
    ensures s.Queued() && !s.Valid()
    ensures s.current[0] == s.current[1] == t && s.regs[1] == frame && s.regs[0].elr == entry
  {
    s := NewTaskRuns(bootTasks, idleTasks, boots, idles, frames, t, entry, stack, memory, 1, frame);
    RunsTwice(s, t, 1);
  }
}
