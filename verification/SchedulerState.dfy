/** Tasks, their saved registers and the queues they wait in: what the scheduler keeps in order. */
module SchedulerState {
  import opened Sequences
  import opened ArrayList
  import opened Queues

  datatype Option<T> = None | Some(value: T)

  const GPRS: nat := 30
  type Gprs = s: seq<nat> | |s| == GPRS witness seq(GPRS, _ => 0)

  /** struct CoreContext */
  datatype Context = Context(gpr: Gprs, lr: nat, elr: nat, spsr: nat, esr: nat, spEl0: nat, far: nat)

  /** What a task runs. Boot tasks and idle tasks never sleep. */
  datatype Kind = BootCode | IdleCode | Worker

  /** The fields of class Task that scheduling looks at, and the code the task runs. */
  datatype Task = Task(kind: Kind, context: Context, p: nat, pin: Option<nat>, timer: nat, lock: Option<nat>,
                       premption: nat)

  const STACK_SIZE: nat := 4096
  const INITIAL_SPSR: nat := 0x364

  /**
   createKernelTask: entry point and stack in place, priority 20, not pinned. Registers and fields it
   does not set are taken over from what the new memory holds.
   */
  function KernelTask(kind: Kind, entry: nat, stack: nat, freePid: nat, memory: Task): (t: Task)
    ensures t.p == 20 && t.pin == None && t.timer == 0 && t.premption == 0 && t.kind == kind
    ensures t.lock == memory.lock && StartsAt(t.context, entry, stack, freePid, memory.context)
  {
    var gpr: Gprs := seq(GPRS, i => if i == 10 then freePid else 0);
    memory.(kind := kind,
            context := memory.context.(gpr := gpr, lr := entry, elr := entry, spEl0 := stack + STACK_SIZE,
                                       spsr := INITIAL_SPSR),
            p := 20, pin := None, timer := 0, premption := 0)
  }

  /** The registers a new task starts with; the others are what the new memory holds. */
  ghost predicate StartsAt(context: Context, entry: nat, stack: nat, pid: nat, memory: Context) {
    && context.elr == entry && context.lr == entry
    && context.spEl0 == stack + 4096 && context.spsr == 0x364
    && context.gpr[10] == pid && (forall k | 0 <= k < 30 && k != 10 :: context.gpr[k] == 0)
    && context.esr == memory.esr && context.far == memory.far
  }

  /** pinToCore: a core that does not exist is ignored. */
  function PinToCore(t: Task, core: nat): (r: Task)
    ensures r.pin == if core < CORES then Some(core) else t.pin
    ensures r == t.(pin := r.pin)
  {
    if core > CORES - 1 then t else t.(pin := Some(core))
  }

  /** The registers that a switch saves and restores: all but far_el1. */
  predicate SameSwitched(a: Context, b: Context) {
    a.(far := 0) == b.(far := 0)
  }

  /** copyRegs */
  method CopyRegs(s: Context, d: Context) returns (r: Context)
    ensures SameSwitched(r, s) && r.far == d.far
  {
    var gpr: Gprs := d.gpr;
    for i := 0 to GPRS
      invariant forall k | 0 <= k < i :: gpr[k] == s.gpr[k]
    {
      gpr := gpr[i := s.gpr[i]];
    }
    r := d.(gpr := gpr, elr := s.elr, esr := s.esr, lr := s.lr, spsr := s.spsr, spEl0 := s.spEl0);
    assert r.gpr == s.gpr;
  }

  /** The whole frame comes back exactly when the fault address did not change in between. */
  lemma FullySwitched(saved: Context, restored: Context, frame: Context)
    requires SameSwitched(restored, saved) && restored.far == frame.far
    ensures restored == saved <==> frame.far == saved.far
  {
  }

  // ----- where tasks wait -----

  ghost function Count(s: seq<TaskId>, t: TaskId): nat {
    multiset(s)[t]
  }

  /** Task t may wait in queue q: asleep, or at its own priority and, if pinned, on its own core. */
  ghost predicate HomeOk(t: Task, q: nat) {
    && t.p < PRIORITIES
    && (t.pin.Some? ==> t.pin.value < CORES)
    && q < QUEUES
    && (q != SLEEPING ==> q % PRIORITIES == t.p && (t.pin.Some? ==> q / PRIORITIES == t.pin.value))
  }

  /** `place` says of every created task the one queue that it is in, once. */
  ghost predicate Placed(contents: seq<seq<TaskId>>, tasks: map<TaskId, Task>, place: map<TaskId, nat>) {
    && |contents| == QUEUES
    && (forall q, t {:trigger Count(contents[q], t)} | 0 <= q < QUEUES ::
          Count(contents[q], t) == if t in place && place[t] == q then 1 else 0)
    && (forall t | t in place :: t in tasks && HomeOk(tasks[t], place[t]))
  }

  /** Every created task is in exactly one queue: asleep, or at its priority and on its own core. */
  lemma ExactlyOneQueue(contents: seq<seq<TaskId>>, tasks: map<TaskId, Task>, place: map<TaskId, nat>,
                        t: TaskId, q: nat)
    requires Placed(contents, tasks, place) && q < QUEUES && t in contents[q]
    ensures t in tasks && HomeOk(tasks[t], q) && Count(contents[q], t) == 1
    ensures forall r | 0 <= r < QUEUES && r != q :: t !in contents[r]
  {
    assert Count(contents[q], t) > 0;
    forall r | 0 <= r < QUEUES && r != q ensures t !in contents[r] {
      assert Count(contents[r], t) == 0;
    }
  }

  lemma Waiting(contents: seq<seq<TaskId>>, tasks: map<TaskId, Task>, place: map<TaskId, nat>, t: TaskId)
    requires Placed(contents, tasks, place) && t in place
    ensures place[t] < QUEUES && t in contents[place[t]]
  {
    assert HomeOk(tasks[t], place[t]);
    assert Count(contents[place[t]], t) == 1;
  }

  lemma InItsQueue(contents: seq<seq<TaskId>>, tasks: map<TaskId, Task>, place: map<TaskId, nat>,
                   q: nat, t: TaskId)
    requires Placed(contents, tasks, place) && q < QUEUES && t in contents[q]
    ensures t in place && place[t] == q && t in tasks
  {
    assert Count(contents[q], t) > 0;
  }

  /** Sorting a queue moves no task. */
  lemma SortedPlaced(contents: seq<seq<TaskId>>, after: seq<seq<TaskId>>, tasks: map<TaskId, Task>,
                     place: map<TaskId, nat>, q: nat)
    requires Placed(contents, tasks, place) && q < QUEUES && |after| == QUEUES
    requires after == contents[q := after[q]] && multiset(after[q]) == multiset(contents[q])
    ensures Placed(after, tasks, place)
  {
    forall r, t | 0 <= r < QUEUES
      ensures Count(after[r], t) == if t in place && place[t] == r then 1 else 0
    {
      assert Count(contents[r], t) == Count(after[r], t);
    }
  }

  lemma CountWithout(s: seq<TaskId>, index: nat, t: TaskId)
    requires index < |s|
    ensures Count(Without(s, index), t) == Count(s, t) - (if t == s[index] then 1 else 0)
  {
    WithoutSorted(s, index);
  }

  lemma CountAppend(s: seq<TaskId>, added: TaskId, t: TaskId)
    ensures Count(s + [added], t) == Count(s, t) + (if t == added then 1 else 0)
  {
  }

  /** Taken out of one queue and appended to another, a task is again in one queue. */
  lemma MovedPlaced(contents: seq<seq<TaskId>>, after: seq<seq<TaskId>>, tasks: map<TaskId, Task>,
                    place: map<TaskId, nat>, t: TaskId, index: nat, q: nat)
    requires Placed(contents, tasks, place) && t in place && q < QUEUES && q != place[t]
    requires place[t] < QUEUES && index < |contents[place[t]]| && contents[place[t]][index] == t
    requires HomeOk(tasks[t], q)
    requires after == contents[place[t] := Without(contents[place[t]], index)][q := contents[q] + [t]]
    ensures Placed(after, tasks, place[t := q])
  {
    forall r, u | 0 <= r < QUEUES
      ensures Count(after[r], u) == if u in place[t := q] && place[t := q][u] == r then 1 else 0
    {
      assert Count(contents[r], u) == if u in place && place[u] == r then 1 else 0;
      CountWithout(contents[place[t]], index, u);
      CountAppend(contents[q], t, u);
    }
  }

  /** A task that was in no queue is appended to one. */
  lemma AddedPlaced(contents: seq<seq<TaskId>>, after: seq<seq<TaskId>>, tasks: map<TaskId, Task>,
                    place: map<TaskId, nat>, t: TaskId, task: Task, q: nat)
    requires Placed(contents, tasks, place) && t !in tasks && q < QUEUES && HomeOk(task, q)
    requires after == contents[q := contents[q] + [t]]
    ensures Placed(after, tasks[t := task], place[t := q])
  {
    forall r, u | 0 <= r < QUEUES
      ensures Count(after[r], u) == if u in place[t := q] && place[t := q][u] == r then 1 else 0
    {
      assert Count(contents[r], u) == if u in place && place[u] == r then 1 else 0;
      CountAppend(contents[q], t, u);
    }
  }

  /** A change to a task that leaves its priority and its pin alone. */
  lemma ChangedPlaced(contents: seq<seq<TaskId>>, tasks: map<TaskId, Task>, place: map<TaskId, nat>,
                      t: TaskId, task: Task)
    requires Placed(contents, tasks, place) && t in tasks
    requires task.p == tasks[t].p && task.pin == tasks[t].pin
    ensures Placed(contents, tasks[t := task], place)
  {
  }

  // ----- what runs -----

  ghost predicate OnCore(place: map<TaskId, nat>, t: TaskId, c: nat) {
    t in place && place[t] < SLEEPING && place[t] / PRIORITIES == c
  }

  /** Each core runs its boot task or a task of its own queues. */
  ghost predicate Running(current: seq<TaskId>, tasks: map<TaskId, Task>, place: map<TaskId, nat>,
                          boot: seq<TaskId>)
  {
    && |current| == |boot| == CORES
    && (forall c | 0 <= c < CORES :: boot[c] in tasks && boot[c] !in place && tasks[boot[c]].kind == BootCode)
    && (forall c, d | 0 <= c < d < CORES :: boot[c] != boot[d])
    && (forall c | 0 <= c < CORES :: current[c] in tasks && (current[c] == boot[c] || OnCore(place, current[c], c)))
  }

  /** The idle task of each core waits in that core's last queue, so that the core has a next task. */
  ghost predicate IdleReady(tasks: map<TaskId, Task>, place: map<TaskId, nat>, idle: seq<TaskId>) {
    && |idle| == CORES
    && forall c | 0 <= c < CORES ::
         && idle[c] in place && place[idle[c]] == RunningQueue(c, PRIORITIES - 1)
         && idle[c] in tasks && tasks[idle[c]].kind == IdleCode
  }

  /** A task that does not run has the registers it was last switched out with. */
  ghost predicate Saved(current: seq<TaskId>, tasks: map<TaskId, Task>, place: map<TaskId, nat>,
                        lastOut: map<TaskId, Context>)
  {
    forall t | t in place && t in tasks :: t in lastOut && (t in current || SameSwitched(tasks[t].context, lastOut[t]))
  }

  /** No task runs on two cores. */
  lemma OneCoreEach(current: seq<TaskId>, tasks: map<TaskId, Task>, place: map<TaskId, nat>,
                    boot: seq<TaskId>, c: nat, d: nat)
    requires Running(current, tasks, place, boot) && c < CORES && d < CORES && c != d
    ensures current[c] != current[d]
  {
    assert boot[c] != boot[d];
  }
}
