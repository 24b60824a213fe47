/** The scheduler of src/IRQ.cpp and src/Task.cpp; each handler is one atomic step. */
module Scheduler {
  import opened Sorting
  import opened Queues
  import opened SchedulerState
  import opened SchedulerSteps

  class Scheduler {
    const queues: QueueSet
    var current: seq<TaskId>
    var tasks: map<TaskId, Task>
    var regs: seq<Context>
    var freePid: nat
    ghost var place: map<TaskId, nat>
    ghost var boot: seq<TaskId>
    ghost var idle: seq<TaskId>
    ghost var lastOut: map<TaskId, Context>

    /** Every task is in its queue; which of them run, and what is saved, is another matter. */
    ghost predicate Queued()
      reads this, queues, queues.repr
    {
      && this !in queues.repr && queues.Valid()
      && |regs| == |current| == CORES
      && (forall d | 0 <= d < CORES :: current[d] in tasks)
      && Placed(queues.contents, tasks, place)
      && IdleReady(tasks, place, idle)
    }

    ghost predicate Valid()
      reads this, queues, queues.repr
    {
      && Queued()
      && Running(current, tasks, place, boot)
      && Saved(current, tasks, place, lastOut)
    }

    ghost function Now(): View
      reads this, queues
    {
      View(queues.contents, tasks, place, current, regs, lastOut)
    }

    /** As Valid, with nothing said about what core c runs. */
    ghost predicate ValidBut(c: nat)
      reads this, queues, queues.repr
    {
      && Queued()
      && RunningBut(current, tasks, place, boot, c)
      && Saved(current, tasks, place, lastOut)
    }

    /** Every core runs its boot task, and its idle task waits; other tasks are added later. */
    constructor (bootTasks: seq<TaskId>, idleTasks: seq<TaskId>, boots: Task, idles: Task, frames: seq<Context>)
      requires |bootTasks| == |idleTasks| == |frames| == CORES
      requires forall c, d | 0 <= c < d < CORES :: bootTasks[c] != bootTasks[d] && idleTasks[c] != idleTasks[d]
      requires forall c, d | 0 <= c < CORES && 0 <= d < CORES :: bootTasks[c] != idleTasks[d]
      requires idles.p == PRIORITIES - 1 && idles.pin.None?
      requires boots.kind == BootCode && idles.kind == IdleCode
      ensures Valid() && fresh(queues) && fresh(queues.repr)
      ensures current == bootTasks && boot == bootTasks && idle == idleTasks && regs == frames
      ensures forall t :: t in place <==> t in idleTasks
      ensures forall t :: t in tasks <==> t in bootTasks || t in idleTasks
      ensures forall c | 0 <= c < CORES :: tasks[bootTasks[c]] == boots && tasks[idleTasks[c]] == idles
    {
      queues := new QueueSet();
      current, boot, idle, regs := bootTasks, bootTasks, idleTasks, frames;
      tasks := map t | t in bootTasks :: boots;
      place := map[];
      lastOut := map[];
      freePid := 1;
      new;
      AddIdleTasks(idleTasks, idles);
    }

    method AddIdleTasks(idleTasks: seq<TaskId>, idles: Task)
      requires this !in queues.repr && queues.Valid() && |regs| == CORES
      requires Placed(queues.contents, tasks, place) && Running(current, tasks, place, boot)
      requires place == map[] && idle == idleTasks && |idleTasks| == CORES
      requires forall c, d | 0 <= c < d < CORES :: idleTasks[c] != idleTasks[d]
      requires forall c | 0 <= c < CORES :: idleTasks[c] !in tasks
      requires idles.kind == IdleCode && idles.p == PRIORITIES - 1 && idles.pin.None?
      modifies this`tasks, this`place, this`lastOut, queues, queues.repr
      ensures Valid() && fresh(queues.repr - old(queues.repr))
      ensures forall t :: t in place <==> t in idleTasks
      ensures forall t :: t in tasks <==> t in old(tasks) || t in idleTasks
      ensures forall t | t in old(tasks) :: tasks[t] == old(tasks)[t]
      ensures forall c | 0 <= c < CORES :: tasks[idleTasks[c]] == idles
    {
      for c := 0 to CORES
        invariant this !in queues.repr && queues.Valid() && fresh(queues.repr - old(queues.repr))
        invariant Placed(queues.contents, tasks, place) && Running(current, tasks, place, boot)
        invariant Saved(current, tasks, place, lastOut)
        invariant forall d | c <= d < CORES :: idleTasks[d] !in tasks
        invariant forall t :: t in place <==> t in idleTasks[..c]
        invariant forall t :: t in tasks <==> t in old(tasks) || t in idleTasks[..c]
        invariant forall t | t in old(tasks) :: tasks[t] == old(tasks)[t]
        invariant forall d | 0 <= d < c ::
                    && idle[d] in place && place[idle[d]] == RunningQueue(d, PRIORITIES - 1)
                    && idle[d] in tasks && tasks[idle[d]] == idles
      {
        AddTask(idleTasks[c], idles, c);
      }
      assert idleTasks[..CORES] == idleTasks;
    }

    /** A worker as the kernel makes it at start-up: its own priority, perhaps pinned to this core. */
    method CreateTask(t: TaskId, entry: nat, stack: nat, memory: Task, p: nat, pin: bool, c: nat)
      requires Valid() && c < CORES && p < PRIORITIES && t !in tasks
      modifies this`tasks, this`place, this`lastOut, this`freePid, queues, queues.repr
      ensures Valid() && fresh(queues.repr - old(queues.repr)) && freePid == old(freePid) + 1
      ensures Created(t, entry, stack, memory, p, pin, c, freePid, old(Now()), Now())
    {
      freePid := freePid + 1;
      var task := KernelTask(Worker, entry, stack, freePid, memory).(p := p);
      if pin {
        task := PinToCore(task, c);
      }
      AddTask(t, task, c);
    }

    /** A new task is put into a running queue of core c, at its priority. */
    method AddTask(t: TaskId, task: Task, c: nat)
      requires this !in queues.repr && queues.Valid()
      requires Placed(queues.contents, tasks, place) && Running(current, tasks, place, boot)
      requires Saved(current, tasks, place, lastOut)
      requires c < CORES && task.p < PRIORITIES && t !in tasks
      requires HomeOk(task, RunningQueue(c, task.p))
      modifies this`tasks, this`place, this`lastOut, queues, queues.repr
      ensures this !in queues.repr && queues.Valid() && fresh(queues.repr - old(queues.repr))
      ensures Placed(queues.contents, tasks, place) && Running(current, tasks, place, boot)
      ensures Saved(current, tasks, place, lastOut)
      ensures tasks == old(tasks)[t := task] && place == old(place)[t := RunningQueue(c, task.p)]
      ensures lastOut == old(lastOut)[t := task.context] && |old(queues.contents)| == QUEUES
      ensures var q := RunningQueue(c, task.p);
              queues.contents == old(queues.contents)[q := old(queues.contents)[q] + [t]]
    {
      ghost var before := queues.contents;
      var q := RunningQueue(c, task.p);
      queues.Add(q, t);
      AddedPlaced(before, queues.contents, tasks, place, t, task, q);
      tasks := tasks[t := task];
      place := place[t := q];
      lastOut := lastOut[t := task.context];
    }

    predicate Preemptable(c: nat)
      requires c < |current| && current[c] in tasks
      reads this
    {
      tasks[current[c]].premption == 0
    }

    /** The least loaded core for the task's priority, or the one it is pinned to. */
    method CalcNextCore(t: TaskId) returns (core: nat)
      requires queues.Valid() && t in tasks && tasks[t].p < PRIORITIES
      requires tasks[t].pin.Some? ==> tasks[t].pin.value < CORES
      ensures core < CORES
      ensures tasks[t].pin.Some? ==> core == tasks[t].pin.value
      ensures tasks[t].pin.None? ==> LeastLoaded(queues.contents, tasks[t].p, core)
    {
      if tasks[t].pin.Some? {
        return tasks[t].pin.value;
      }
      core := 0;
      var count := MAX_COUNT;
      for i := 0 to CORES
        invariant core < CORES && (i == 0 ==> core == 0) && count <= MAX_COUNT
        invariant forall k | 0 <= k < i :: count <= Load(queues.contents, tasks[t].p, k)
        invariant count == MAX_COUNT ==> core == 0
        invariant count < MAX_COUNT ==>
                    && core < i && count == Load(queues.contents, tasks[t].p, core)
                    && forall k | 0 <= k < core :: count < Load(queues.contents, tasks[t].p, k)
      {
        var size := queues.Size(RunningQueue(i, tasks[t].p));
        if size < count {
          count := size;
          core := i;
        }
      }
    }

    /** The first queue of the core that is not empty, and a task from it. */
    method FindNext(c: nat, pick: nat) returns (next: TaskId)
      requires Queued() && c < CORES
      ensures Picked(queues.contents, c, pick, next)
    {
      Waiting(queues.contents, tasks, place, idle[c]);
      assert Load(queues.contents, PRIORITIES - 1, c) > 0;
      for p := 0 to PRIORITIES
        invariant forall k | 0 <= k < p :: Load(queues.contents, k, c) == 0
      {
        var q := RunningQueue(c, p);
        var size := queues.Size(q);
        if size > 0 {
          next := queues.Get(q, pick % size);
          PickedHere(queues.contents, c, pick, next, p);
          return;
        }
      }
      assert false;
    }

    /**
     reschedule: unless the current task forbids it, the registers of the frame are saved with it
     and those of the next task are put in their place. The core halts when these would return to
     an address outside the kernel.
     */
    method Reschedule(c: nat, pick: nat) returns (halted: bool)
      requires Queued() && c < CORES
      modifies this`current, this`tasks, this`regs, this`lastOut
      ensures Queued()
      ensures old(Valid()) ==> Valid()
      ensures old(ValidBut(c)) && old(Preemptable(c)) ==> Valid()
      ensures halted <==> old(Preemptable(c)) && current[c] in tasks && tasks[current[c]].context.elr < KERNEL_SPACE
      ensures Rescheduled(c, pick, old(Now()), Now())
      ensures old(Preemptable(c)) ==> current[c] in place
      ensures old(ValidBut(c)) && old(Preemptable(c)) ==> Resumed(c, old(Now()), Now())
      ensures old(Valid()) && old(Preemptable(c)) ==> Resumed(c, old(Now()), Now())
    {
      halted := false;
      if tasks[current[c]].premption <= 0 {
        var next := FindNext(c, pick);
        PickedOnCore(queues.contents, tasks, place, c, pick, next);
        SwitchTo(c, next);
        halted := tasks[next].context.elr < KERNEL_SPACE;
      }
    }

    /** The two copies of registers in reschedule, and the new current task. */
    method SwitchTo(c: nat, next: TaskId)
      requires Queued() && c < CORES && next in tasks && OnCore(place, next, c)
      modifies this`current, this`tasks, this`regs, this`lastOut
      ensures Queued() && next in place
      ensures var out := old(current)[c];
              && current == old(current)[c := next]
              && lastOut == old(lastOut)[out := old(regs)[c]]
              && out in tasks && tasks == old(tasks)[out := old(tasks)[out].(context := tasks[out].context)]
              && SameSwitched(tasks[out].context, old(regs)[c])
              && tasks[out].context.far == old(tasks)[out].context.far
              && SameSwitched(regs[c], if next == out then old(regs)[c] else old(tasks)[next].context)
              && regs == old(regs)[c := regs[c]] && regs[c].far == old(regs)[c].far
      ensures old(ValidBut(c)) ==>
                && Valid() && next in old(lastOut)
                && (next != old(current)[c] ==> SameSwitched(old(tasks)[next].context, old(lastOut)[next]))
    {
      ghost var out, ordered := current[c], ValidBut(c);
      var tasks', frame := CopyFrames(c, next);
      var current' := current[c := next];
      ghost var lastOut' := lastOut[out := regs[c]];
      if ordered {
        OnlyHere(next, c);
        SwitchKeeps(current, tasks, place, boot, lastOut, c, next, regs[c], tasks'[out].context);
      }
      tasks, current, lastOut, regs := tasks', current', lastOut', regs[c := frame];
    }

    /** The frame of core c is saved with its task, and that of the next task takes its place. */
    method CopyFrames(c: nat, next: TaskId) returns (tasks': map<TaskId, Task>, frame: Context)
      requires Queued() && c < CORES && next in tasks
      ensures Placed(queues.contents, tasks', place) && IdleReady(tasks', place, idle)
      ensures tasks'.Keys == tasks.Keys
      ensures var out := current[c];
              && tasks' == tasks[out := tasks[out].(context := tasks'[out].context)]
              && SameSwitched(tasks'[out].context, regs[c])
              && tasks'[out].context.far == tasks[out].context.far
              && SameSwitched(frame, if next == out then regs[c] else tasks[next].context) && frame.far == regs[c].far
    {
      var out := current[c];
      var saved := CopyRegs(regs[c], tasks[out].context);
      ChangedPlaced(queues.contents, tasks, place, out, tasks[out].(context := saved));
      tasks' := tasks[out := tasks[out].(context := saved)];
      frame := CopyRegs(tasks'[next].context, regs[c]);
    }

    /** A task of this core's queues does not run anywhere else. */
    lemma OnlyHere(t: TaskId, c: nat)
      requires ValidBut(c) && OnCore(place, t, c)
      ensures t in tasks && t in lastOut
      ensures t in current ==> current[c] == t
    {
      if t in current {
        var d :| 0 <= d < CORES && current[d] == t;
        assert t != boot[d];
      }
    }

    /** The first sleeper that is due, in queue order, or none. */
    method FindDue(cause: Cause) returns (found: bool, t: TaskId)
      requires Queued() && queues.sorted[SLEEPING]
      ensures found ==> First(cause, tasks, place, t)
      ensures found ==> t in queues.contents[SLEEPING] && t in tasks && Due(cause, tasks[t])
      ensures !found ==> forall u | u in queues.contents[SLEEPING] && u in tasks :: !Due(cause, tasks[u])
    {
      var size := queues.Size(SLEEPING);
      for k := 0 to size
        invariant forall j | 0 <= j < k && queues.contents[SLEEPING][j] in tasks ::
                    !Due(cause, tasks[queues.contents[SLEEPING][j]])
      {
        t := queues.Get(SLEEPING, k);
        InItsQueue(queues.contents, tasks, place, SLEEPING, t);
        if Due(cause, tasks[t]) {
          FirstInQueue(cause, k);
          return true, t;
        }
      }
      found, t := false, 0;
    }

    lemma FirstInQueue(cause: Cause, k: nat)
      requires Queued() && queues.sorted[SLEEPING] && k < |queues.contents[SLEEPING]|
      requires forall j | 0 <= j < k && queues.contents[SLEEPING][j] in tasks ::
                 !Due(cause, tasks[queues.contents[SLEEPING][j]])
      ensures First(cause, tasks, place, queues.contents[SLEEPING][k])
    {
      var sleepers := queues.contents[SLEEPING];
      queues.SortedContents(SLEEPING);
      forall u | WasDue(cause, tasks, place, u) ensures sleepers[k] <= u {
        Waiting(queues.contents, tasks, place, u);
        var j :| 0 <= j < |sleepers| && sleepers[j] == u;
        assert j == k || InOrder(sleepers, k, j);
      }
    }

    /** One round of a wake-up loop: a due sleeper goes to a running queue of the core chosen for it. */
    method WakeOne(cause: Cause, t: TaskId) returns (ghost core: nat)
      requires Queued() && queues.sorted[SLEEPING] && t in queues.contents[SLEEPING] && t in tasks
      modifies this`tasks, this`place, queues, queues.repr
      ensures Queued() && fresh(queues.repr - old(queues.repr)) && queues.sorted[SLEEPING]
      ensures old(Valid()) ==> Valid()
      ensures t in old(place) && old(place[t]) == SLEEPING
      ensures tasks == old(tasks)[t := Cleared(cause, old(tasks)[t])]
      ensures core < CORES && tasks[t].p < PRIORITIES && |old(queues.contents)| == QUEUES
      ensures tasks[t].pin.Some? ==> core == tasks[t].pin.value
      ensures tasks[t].pin.None? ==> LeastLoaded(old(queues.contents), tasks[t].p, core)
      ensures place == old(place)[t := RunningQueue(core, tasks[t].p)]
      ensures |queues.contents[SLEEPING]| < |old(queues.contents)[SLEEPING]|
      ensures var q := RunningQueue(core, tasks[t].p);
              SameRunning(old(queues.contents)[q := old(queues.contents)[q] + [t]], queues.contents)
    {
      InItsQueue(queues.contents, tasks, place, SLEEPING, t);
      assert HomeOk(tasks[t], SLEEPING);
      ghost var before := queues.contents;
      var cleared := Cleared(cause, tasks[t]);
      var next := CalcNextCore(t);
      core := next;
      var q := RunningQueue(next, tasks[t].p);
      ghost var index;
      var found;
      found, index := queues.Remove(SLEEPING, t);
      queues.Add(q, t);
      MovedPlaced(before, queues.contents, tasks, place, t, index, q);
      ChangedPlaced(queues.contents, tasks, place[t := q], t, cleared);
      WakeKeeps(cause, tasks, place, t, q, current, boot, idle, lastOut);
      tasks := tasks[t := cleared];
      place := place[t := q];
    }

    /** One round of the loop, and the search for the next one. */
    method WakeNext(cause: Cause, t: TaskId, ghost contents0: seq<seq<TaskId>>, ghost tasks0: map<TaskId, Task>,
                    ghost place0: map<TaskId, nat>, ghost wakes: seq<Dispatch>)
      returns (found: bool, next: TaskId, ghost more: seq<Dispatch>)
      requires Queued() && queues.sorted[SLEEPING]
      requires t in queues.contents[SLEEPING] && t in tasks && Due(cause, tasks[t])
      requires First(cause, tasks, place, t)
      requires Waking(cause, contents0, tasks0, place0, queues.contents, tasks, place, wakes)
      modifies this`tasks, this`place, queues, queues.repr
      ensures Queued() && fresh(queues.repr - old(queues.repr)) && queues.sorted[SLEEPING]
      ensures old(Valid()) ==> Valid()
      ensures found ==> next in queues.contents[SLEEPING] && next in tasks && Due(cause, tasks[next])
      ensures found ==> First(cause, tasks, place, next)
      ensures !found ==> forall u | u in queues.contents[SLEEPING] && u in tasks :: !Due(cause, tasks[u])
      ensures Waking(cause, contents0, tasks0, place0, queues.contents, tasks, place, more)
      ensures |queues.contents[SLEEPING]| < |old(queues.contents)[SLEEPING]|
    {
      ghost var contents1, tasks1, place1 := queues.contents, tasks, place;
      InItsQueue(contents1, tasks1, place1, SLEEPING, t);
      ghost var core := WakeOne(cause, t);
      ghost var w := Dispatch(t, core);
      assert SentRight(contents1, tasks1, w) && QueueFor(tasks1, w) == RunningQueue(core, tasks1[t].p);
      WakesOneMore(cause, contents0, tasks0, place0, contents1, tasks1, place1, wakes, w, queues.contents);
      more := wakes + [w];
      found, next := FindDue(cause);
    }

    /** wakeUpTimers and wakeUpLocks: sort the sleepers, then wake one due task after the other. */
    method WakeUp(cause: Cause) returns (ghost wakes: seq<Dispatch>)
      requires Queued()
      modifies this`tasks, this`place, queues, queues.repr
      ensures Queued() && fresh(queues.repr - old(queues.repr))
      ensures old(Valid()) ==> Valid()
      ensures AllAwoken(cause, old(tasks), old(place), tasks, place)
      ensures Woke(cause, old(tasks), old(place), tasks, place)
      ensures Sent(old(queues.contents), old(tasks), old(place), queues.contents, place, wakes)
    {
      wakes := [];
      SortQueue(SLEEPING);
      var found, t := FindDue(cause);
      while found
        invariant Queued() && fresh(queues.repr - old(queues.repr)) && queues.sorted[SLEEPING]
        invariant old(Valid()) ==> Valid()
        invariant found ==> t in queues.contents[SLEEPING] && t in tasks && Due(cause, tasks[t])
        invariant found ==> First(cause, tasks, place, t)
        invariant !found ==> forall u | u in queues.contents[SLEEPING] && u in tasks :: !Due(cause, tasks[u])
        invariant Waking(cause, old(queues.contents), old(tasks), old(place), queues.contents, tasks, place, wakes)
        decreases |queues.contents[SLEEPING]|
      {
        found, t, wakes := WakeNext(cause, t, old(queues.contents), old(tasks), old(place), wakes);
      }
      forall u ensures !WasDue(cause, tasks, place, u) {
        if u in place && place[u] == SLEEPING {
          Waiting(queues.contents, tasks, place, u);
        }
      }
      NoneLeft(cause, old(tasks), old(place), tasks, place);
      AwokenIsWoke(cause, old(tasks), old(place), tasks, place);
    }

    method SortQueue(q: nat)
      requires Queued() && q < QUEUES
      modifies queues, queues.repr
      ensures Queued() && fresh(queues.repr - old(queues.repr))
      ensures queues.contents == old(queues.contents)[q := queues.contents[q]]
      ensures multiset(queues.contents[q]) == multiset(old(queues.contents)[q])
      ensures queues.sorted == old(queues.sorted)[q := true]
    {
      ghost var before := queues.contents;
      queues.Sort(q);
      SortedPlaced(before, queues.contents, tasks, place, q);
    }

    // ----- the steps -----

    /** SYSTEM_SLEEP_IRQ: the current task leaves its running queue for the sleeping queue. */
    method FallAsleep(c: nat)
      requires Valid() && c < CORES && tasks[current[c]].kind == Worker
      modifies this`place, queues, queues.repr
      ensures ValidBut(c) && fresh(queues.repr - old(queues.repr))
      ensures FellAsleep(c, old(Now()), Now())
    {
      SleepKeeps(current, tasks, place, boot, idle, lastOut, c);
      LeaveQueue(c);
      place := place[current[c] := SLEEPING];
    }

    /** The queues' part of it. */
    method LeaveQueue(c: nat)
      requires Valid() && c < CORES && tasks[current[c]].kind == Worker
      modifies queues, queues.repr
      ensures this !in queues.repr && queues.Valid() && fresh(queues.repr - old(queues.repr))
      ensures Placed(queues.contents, tasks, place[current[c] := SLEEPING])
      ensures FellAsleep(c, old(Now()), Now().(place := place[current[c] := SLEEPING]))
    {
      var t := current[c];
      assert HomeOk(tasks[t], place[t]);
      var q := RunningQueue(c, tasks[t].p);
      Waiting(queues.contents, tasks, place, t);
      ghost var contents := queues.contents;
      SortQueue(q);
      Waiting(queues.contents, tasks, place, t);
      ghost var before := queues.contents;
      ghost var index;
      var found;
      found, index := queues.Remove(q, t);
      queues.Add(SLEEPING, t);
      LeftForSleep(contents, before, queues.contents, q, index, t);
      MovedPlaced(before, queues.contents, tasks, place, t, index, SLEEPING);
    }

    /**
     The handler of the sleep interrupt. The state is in order afterwards exactly when the task may
     be preempted; otherwise it keeps running while it waits among the sleepers.
     */
    method SleepSgi(c: nat, pick: nat) returns (halted: bool, ghost asleep: View)
      requires Valid() && c < CORES && tasks[current[c]].kind == Worker
      modifies this, queues, queues.repr
      ensures ValidBut(c) && fresh(queues.repr - old(queues.repr))
      ensures FellAsleep(c, old(Now()), asleep) && Rescheduled(c, pick, asleep, Now())
      ensures boot == old(boot) && idle == old(idle)
      ensures Valid() <==> old(Preemptable(c))
      ensures old(Preemptable(c)) ==> Resumed(c, old(Now()), Now())
      ensures old(Preemptable(c)) ==> old(current)[c] !in current
      ensures !old(Preemptable(c)) ==> current == old(current) && current[c] in queues.contents[SLEEPING]
    {
      FallAsleep(c);
      asleep := Now();
      halted := Reschedule(c, pick);
      assert place[old(current)[c]] == SLEEPING;
      if !old(Preemptable(c)) {
        Waiting(queues.contents, tasks, place, current[c]);
        assert !OnCore(place, current[c], c);
      } else {
        forall d | 0 <= d < CORES ensures current[d] != old(current)[c] {
          assert current[d] == boot[d] || OnCore(place, current[d], d);
        }
      }
    }

    /**
     SYSTEM_TIMER_IRQ_1 on core 0: wake the tasks whose time has come, then switch, and tell the
     other cores to switch too, unless the switch has made core 0 halt.
     */
    method TimerIrq(now: nat, pick: nat) returns (halted: bool, told: seq<nat>, ghost awake: View)
      requires Valid()
      modifies this`tasks, this`place, this`current, this`regs, this`lastOut, queues, queues.repr
      ensures Valid() && fresh(queues.repr - old(queues.repr))
      ensures place.Keys == old(place).Keys
      ensures NoneDue(Expired(now), tasks, place)
      ensures Woken(Expired(now), old(Now()), awake) && Rescheduled(0, pick, awake, Now())
      ensures old(Preemptable(0)) ==> Resumed(0, old(Now()), Now())
      ensures halted <==>
                old(Preemptable(0)) && current[0] in tasks && tasks[current[0]].context.elr < KERNEL_SPACE
      ensures told == if halted then [] else [1, 2, 3]
    {
      WakeTimers(now);
      awake := Now();
      halted := Reschedule(0, pick);
      ResumedSince(0, old(Now()), awake, Now());
      StillAsleep(Expired(now), 0, pick, awake, Now());
      told := if halted then [] else [1, 2, 3];
    }

    method WakeTimers(now: nat)
      requires Valid()
      modifies this`tasks, this`place, queues, queues.repr
      ensures Valid() && fresh(queues.repr - old(queues.repr)) && place.Keys == old(place).Keys
      ensures Woken(Expired(now), old(Now()), Now()) && NoneDue(Expired(now), tasks, place)
      ensures current[0] in old(tasks) && (Preemptable(0) <==> old(Preemptable(0)))
    {
      ghost var tasks0, place0 := tasks, place;
      ghost var wakes := WakeUp(Expired(now));
      AwokenFacts(Expired(now), tasks0, place0, tasks, place);
      SamePreemption(Expired(now), tasks0, place0, tasks, place, current[0]);
    }

    /** SYSTEM_WAKEUP_ALL: tasks whose time has come and tasks whose lock is nobody's. */
    method WakeAll(now: nat, ownerless: set<nat>) returns (ghost first: View)
      requires Valid()
      modifies this, queues, queues.repr
      ensures Valid() && fresh(queues.repr - old(queues.repr))
      ensures place.Keys == old(place).Keys && boot == old(boot) && idle == old(idle)
      ensures current == old(current) && regs == old(regs) && lastOut == old(lastOut)
      ensures NoneDue(Expired(now), tasks, place) && NoneDue(Released(ownerless), tasks, place)
      ensures Woken(Expired(now), old(Now()), first) && Woken(Released(ownerless), first, Now())
      ensures BothWoke(now, ownerless, old(tasks), old(place), tasks, place)
    {
      ghost var wakes := WakeUp(Expired(now));
      first := Now();
      AwokenFacts(Expired(now), old(tasks), old(place), tasks, place);
      ghost var tasks1, place1 := tasks, place;
      wakes := WakeUp(Released(ownerless));
      AwokenFacts(Released(ownerless), tasks1, place1, tasks, place);
      StillNoneDue(Expired(now), Released(ownerless), tasks1, place1, tasks, place);
      OneAfterTheOther(now, ownerless, old(tasks), old(place), tasks1, place1, tasks, place);
    }

    /** Between interrupts the task of core c computes, and so changes the core's registers. */
    method Execute(c: nat, frame: Context)
      requires Valid() && c < CORES
      modifies this`regs
      ensures Valid() && regs == old(regs)[c := frame]
    {
      regs := regs[c := frame];
    }

    /** The running task sets its own timer, the lock it waits for, or its preemption count. */
    method Adjust(c: nat, timer: nat, lock: Option<nat>, premption: nat)
      requires Valid() && c < CORES
      modifies this`tasks
      ensures Valid()
      ensures Adjusted(c, timer, lock, premption, old(Now()), Now())
    {
      var t := current[c];
      var task := tasks[t].(timer := timer, lock := lock, premption := premption);
      ChangedPlaced(queues.contents, tasks, place, t, task);
      tasks := tasks[t := task];
    }
  }
}
