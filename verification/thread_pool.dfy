/** The thread pool of threadpool.c as a state machine: workers, pushing threads and one
    destroy interleave at every access to the lock, the flags and the task list. */
module ThreadPool {
  type Task = nat

  /** Where a worker stands in `nThreadPoolCallback`. */
  datatype Pc =
    | Idle
    | Check         // holds the lock, about to test the task list
    | CheckTerm     // found it empty, about to test its flag
    | Blocked       // inside pthread_cond_wait
    | Woken         // signalled, needs the lock again
    | Decide        // left the inner loop, about to test its flag again
    | Take          // about to remove the first task
    | Release(task: Task)
    | Busy(task: Task)
    | Quit          // about to release the lock for the last time
    | Done

  /** Where `nThreadPoolDestroy` stands. */
  datatype Destroyer =
    | NotCalled
    | Setting(next: nat)
    | Locking
    | Broadcasting
    | Unlocking
    | Resetting
    | Finished

  /** Where the thread that holds the lock in `nThreadPoolPushTask` stands. LIST_INSERT first
      links the new task to the head it reads, then stores the new head. */
  datatype Pusher =
    | Absent
    | Linking(task: Task)
    | Publishing(task: Task, rest: seq<Task>)
    | Signalling
    | Leaving

  datatype Lock = Free | Held(worker: nat) | ByDestroyer | ByPusher

  /** `pushed`, `claimed` and `executed` record, in order, the tasks that were put into the list,
      those that workers took from it, and those whose function has returned. */
  datatype State = State(
    pc: seq<Pc>,
    terminate: seq<bool>,
    tasks: seq<Task>,
    lock: Lock,
    destroyer: Destroyer,
    pusher: Pusher,
    pushed: seq<Task>,
    claimed: seq<Task>,
    executed: seq<Task>)

  /** Workers step, wake spuriously, a push gets the lock, the push goes on, and destroy goes
      on. The push that signals names the blocked worker it wakes. */
  datatype Step = Work(i: nat) | Spurious(i: nat) | Push(task: Task) | PushOn(signalled: nat) | Destroy

  /** `nThreadPoolCreate`: at least one worker. */
  function Create(workers: int): (s: State)
    ensures |s.pc| == |s.terminate| >= 1 && (workers >= 1 ==> |s.pc| == workers)
  {
    var n := if workers < 1 then 1 else workers;
    State(seq(n, _ => Idle), seq(n, _ => false), [], Free, NotCalled, Absent, [], [], [])
  }

  predicate Shaped(s: State) { |s.terminate| == |s.pc| }

  predicate InLock(pc: Pc) { pc.Check? || pc.CheckTerm? || pc.Decide? || pc.Take? || pc.Release? || pc.Quit? }

  predicate AnyBlocked(s: State) { exists i :: 0 <= i < |s.pc| && s.pc[i].Blocked? }

  /** A step can be taken now. A task is pushed once. */
  predicate Enabled(s: State, step: Step)
    requires Shaped(s)
  {
    match step
    case Work(i) =>
      && i < |s.pc| && !s.pc[i].Blocked? && !s.pc[i].Done?
      && (s.pc[i].Idle? || s.pc[i].Woken? ==> s.lock.Free?)
    case Spurious(i) => i < |s.pc| && s.pc[i].Blocked?
    case Push(task) => s.lock.Free? && task !in s.pushed
    case PushOn(signalled) =>
      && !s.pusher.Absent?
      && (s.pusher.Signalling? && AnyBlocked(s) ==> signalled < |s.pc| && s.pc[signalled].Blocked?)
    case Destroy => !s.destroyer.Finished? && (s.destroyer.Locking? ==> s.lock.Free?)
  }

  function WorkStep(s: State, i: nat): State
    requires Shaped(s) && i < |s.pc|
  {
    match s.pc[i]
    case Idle => s.(pc := s.pc[i := Check], lock := Held(i))
    case Woken => s.(pc := s.pc[i := Check], lock := Held(i))
    case Check => s.(pc := s.pc[i := if s.tasks == [] then CheckTerm else Decide])
    case CheckTerm =>
      if s.terminate[i] then s.(pc := s.pc[i := Decide])
      else s.(pc := s.pc[i := Blocked], lock := Free)
    case Decide => s.(pc := s.pc[i := if s.terminate[i] then Quit else Take])
    case Take =>
      if s.tasks == [] then s
      else s.(pc := s.pc[i := Release(s.tasks[0])], tasks := s.tasks[1..], claimed := s.claimed + [s.tasks[0]])
    case Release(task) => s.(pc := s.pc[i := Busy(task)], lock := Free)
    case Busy(task) => s.(pc := s.pc[i := Idle], executed := s.executed + [task])
    case Quit => s.(pc := s.pc[i := Done], lock := Free)
    case _ => s
  }

  function Wake(pc: Pc): Pc { if pc.Blocked? then Woken else pc }

  function DestroyStep(s: State): State
    requires Shaped(s)
  {
    match s.destroyer
    case NotCalled => s.(destroyer := Setting(0))
    case Setting(k) =>
      if k < |s.terminate| then s.(terminate := s.terminate[k := true], destroyer := Setting(k + 1))
      else s.(destroyer := Locking)
    case Locking => s.(destroyer := Broadcasting, lock := ByDestroyer)
    case Broadcasting =>
      s.(destroyer := Unlocking, pc := seq(|s.pc|, i requires 0 <= i < |s.pc| => Wake(s.pc[i])))
    case Unlocking => s.(destroyer := Resetting, lock := Free)
    case Resetting => s.(destroyer := Finished, tasks := [])
    case Finished => s
  }

  function PushStep(s: State, k: nat): State
    requires s.pusher.Signalling? && AnyBlocked(s) ==> k < |s.pc|
  {
    match s.pusher
    case Absent => s
    case Linking(task) => s.(pusher := Publishing(task, s.tasks))
    case Publishing(task, rest) =>
      s.(tasks := [task] + rest, pushed := s.pushed + [task], pusher := Signalling)
    case Signalling => s.(pusher := Leaving, pc := if AnyBlocked(s) then s.pc[k := Woken] else s.pc)
    case Leaving => s.(pusher := Absent, lock := Free)
  }

  function Next(s: State, step: Step): State
    requires Shaped(s) && Enabled(s, step)
  {
    match step
    case Work(i) => WorkStep(s, i)
    case Spurious(i) => s.(pc := s.pc[i := Woken])
    case Push(task) => s.(lock := ByPusher, pusher := Linking(task))
    case PushOn(k) => PushStep(s, k)
    case Destroy => DestroyStep(s)
  }

  // ---- what every step keeps ----

  /** Destroy has woken everybody. */
  predicate Announced(d: Destroyer) { d.Unlocking? || d.Resetting? || d.Finished? }

  predicate Flags(s: State)
    requires Shaped(s)
  {
    match s.destroyer
    case NotCalled => forall i :: 0 <= i < |s.terminate| ==> !s.terminate[i]
    case Setting(k) => k <= |s.terminate| && forall i :: 0 <= i < k ==> s.terminate[i]
    case _ => forall i :: 0 <= i < |s.terminate| ==> s.terminate[i]
  }

  predicate LockInv(s: State)
    requires Shaped(s)
  {
    && (forall i :: 0 <= i < |s.pc| ==> (InLock(s.pc[i]) <==> s.lock == Held(i)))
    && (s.lock.Held? ==> s.lock.worker < |s.pc|)
    && (s.lock.ByDestroyer? <==> s.destroyer.Broadcasting? || s.destroyer.Unlocking?)
    && (s.lock.ByPusher? <==> !s.pusher.Absent?)
  }

  /** What a push has read is still the task list, unless destroy has reset it meanwhile. */
  predicate PushInv(s: State) {
    && (s.pusher.Linking? ==> s.pusher.task !in s.pushed)
    && (s.pusher.Publishing? ==>
         && s.pusher.task !in s.pushed
         && (if s.destroyer.Finished? then multiset(s.pusher.rest) + multiset(s.claimed) <= multiset(s.pushed)
             else s.pusher.rest == s.tasks))
  }

  /** What a worker may rely on where it stands. */
  predicate Standing(s: State, i: nat)
    requires Shaped(s) && i < |s.pc|
  {
    match s.pc[i]
    case CheckTerm => s.tasks == []
    case Decide => s.tasks != [] || s.terminate[i]
    case Take => s.tasks != [] && !Announced(s.destroyer) && !s.destroyer.Broadcasting?
    case Blocked => !Announced(s.destroyer)
    case Quit => s.terminate[i]
    case Done => s.terminate[i]
    case _ => true
  }

  predicate NoDuplicates(ts: seq<Task>) { forall i, j :: 0 <= i < j < |ts| ==> ts[i] != ts[j] }

  /** Every pushed task is queued or claimed, once; destroy drops what is queued. */
  predicate Accounted(s: State) {
    && NoDuplicates(s.pushed)
    && (if s.destroyer.Finished? then multiset(s.tasks) + multiset(s.claimed) <= multiset(s.pushed)
        else multiset(s.pushed) == multiset(s.tasks) + multiset(s.claimed))
  }

  predicate Alert(pc: Pc) { !pc.Blocked? && !pc.Done? }

  /** While tasks are queued some worker is not asleep, or the push is about to signal. */
  predicate NoLostWakeup(s: State) {
    s.tasks != [] && |s.pc| > 0 && s.destroyer.NotCalled? && !s.pusher.Signalling? ==>
      exists i :: 0 <= i < |s.pc| && Alert(s.pc[i])
  }

  predicate Inv(s: State) {
    && Shaped(s) && Flags(s) && LockInv(s) && PushInv(s) && Accounted(s) && NoLostWakeup(s)
    && forall i :: 0 <= i < |s.pc| ==> Standing(s, i)
  }

  lemma CreateInv(workers: int)
    ensures Inv(Create(workers))
  {
  }

  lemma WorkKeeps(s: State, i: nat)
    requires Inv(s) && Enabled(s, Work(i))
    ensures Inv(WorkStep(s, i))
  {
    hide Flags, LockInv, PushInv, Accounted, NoLostWakeup, Standing;
    WorkLocks(s, i);
    WorkAccounts(s, i);
    WorkStands(s, i);
  }

  lemma WorkLocks(s: State, i: nat)
    requires Inv(s) && Enabled(s, Work(i))
    ensures var t := WorkStep(s, i);
            Shaped(t) && Flags(t) && LockInv(t) && NoLostWakeup(t)
  {
    hide Accounted, PushInv;
    var t := WorkStep(s, i);
    assert Standing(s, i);
    assert t.pc[i] == WorkStep(s, i).pc[i];
  }

  lemma WorkAccounts(s: State, i: nat)
    requires Inv(s) && Enabled(s, Work(i))
    ensures Accounted(WorkStep(s, i)) && PushInv(WorkStep(s, i))
  {
    hide NoDuplicates, NoLostWakeup, Flags;
    assert Standing(s, i);
    if s.pc[i].Take? {
      Claimed(s.tasks, s.claimed);
    }
  }

  lemma WorkStands(s: State, i: nat)
    requires Inv(s) && Enabled(s, Work(i))
    ensures forall j :: 0 <= j < |s.pc| ==> Standing(WorkStep(s, i), j)
  {
    hide Accounted, PushInv, NoLostWakeup;
    assert Standing(s, i);
    forall j | 0 <= j < |s.pc| ensures Standing(WorkStep(s, i), j) {
      assert Standing(s, j);
    }
  }

  /** Moving the first task from one sequence to the other. */
  lemma Claimed(tasks: seq<Task>, claimed: seq<Task>)
    requires tasks != []
    ensures multiset(tasks[1..]) + multiset(claimed + [tasks[0]]) == multiset(tasks) + multiset(claimed)
  {
    assert tasks == [tasks[0]] + tasks[1..];
  }

  lemma PushKeeps(s: State, task: Task)
    requires Inv(s) && Enabled(s, Push(task))
    ensures Inv(Next(s, Push(task)))
  {
    hide NoDuplicates;
    var t := Next(s, Push(task));
    forall j | 0 <= j < |t.pc| ensures Standing(t, j) {
      assert Standing(s, j);
    }
    assert NoLostWakeup(t);
  }

  lemma PushOnKeeps(s: State, k: nat)
    requires Inv(s) && Enabled(s, PushOn(k))
    ensures Inv(PushStep(s, k))
  {
    hide Accounted, PushInv, Standing, NoDuplicates;
    var t := PushStep(s, k);
    PushAccounts(s, k);
    PushStands(s, k);
    if s.pusher.Signalling? && |s.pc| > 0 && s.destroyer.NotCalled? {
      SignalWakes(s, k);
    } else {
      assert NoLostWakeup(t);
    }
  }

  lemma PushAccounts(s: State, k: nat)
    requires Inv(s) && Enabled(s, PushOn(k))
    ensures Accounted(PushStep(s, k)) && PushInv(PushStep(s, k))
  {
    hide Standing, Flags, NoLostWakeup;
  }

  lemma PushStands(s: State, k: nat)
    requires Inv(s) && Enabled(s, PushOn(k))
    ensures forall j :: 0 <= j < |s.pc| ==> Standing(PushStep(s, k), j)
  {
    hide Accounted, NoLostWakeup;
    forall j | 0 <= j < |s.pc| ensures Standing(PushStep(s, k), j) {
      assert Standing(s, j) && !InLock(s.pc[j]);
    }
  }

  lemma SignalWakes(s: State, k: nat)
    requires Inv(s) && Enabled(s, PushOn(k)) && s.pusher.Signalling? && |s.pc| > 0 && s.destroyer.NotCalled?
    ensures NoLostWakeup(PushStep(s, k))
  {
    var t := PushStep(s, k);
    if AnyBlocked(s) {
      assert Alert(t.pc[k]);
    } else {
      assert Standing(s, 0);
      assert Alert(t.pc[0]);
    }
  }

  lemma DestroyKeeps(s: State)
    requires Inv(s) && Enabled(s, Destroy)
    ensures Inv(DestroyStep(s))
  {
    hide Flags, LockInv, PushInv, Accounted, NoLostWakeup, Standing;
    DestroyLocks(s);
    DestroyAccounts(s);
    DestroyStands(s);
  }

  lemma DestroyLocks(s: State)
    requires Inv(s) && Enabled(s, Destroy)
    ensures var t := DestroyStep(s);
            Shaped(t) && |t.pc| == |s.pc| && Flags(t) && LockInv(t) && NoLostWakeup(t)
  {
    hide Accounted, PushInv, Standing;
  }

  lemma DestroyAccounts(s: State)
    requires Inv(s) && Enabled(s, Destroy)
    ensures Accounted(DestroyStep(s)) && PushInv(DestroyStep(s))
  {
    hide NoDuplicates, NoLostWakeup, Flags, LockInv, Standing;
  }

  lemma DestroyStands(s: State)
    requires Inv(s) && Enabled(s, Destroy)
    ensures forall j :: 0 <= j < |s.pc| ==> Standing(DestroyStep(s), j)
  {
    hide Accounted, PushInv, NoLostWakeup;
    forall j | 0 <= j < |s.pc| ensures Standing(DestroyStep(s), j) {
      assert Standing(s, j) && (InLock(s.pc[j]) <==> s.lock == Held(j));
    }
  }

  lemma StepKeeps(s: State, step: Step)
    requires Inv(s) && Enabled(s, step)
    ensures Inv(Next(s, step)) && (Worked(s) ==> Worked(Next(s, step)))
  {
    hide Worked;
    if Worked(s) {
      StepWorks(s, step);
    }
    match step
    case Work(i) => WorkKeeps(s, i);
    case Push(task) => PushKeeps(s, task);
    case PushOn(k) => PushOnKeeps(s, k);
    case Destroy => DestroyKeeps(s);
    case Spurious(i) =>
      var t := Next(s, step);
      assert Alert(t.pc[i]);
      forall j | 0 <= j < |t.pc| ensures Standing(t, j) {
        assert Standing(s, j);
      }
  }

  // ---- whole runs ----

  predicate Legal(s: State, steps: seq<Step>)
    requires Shaped(s)
    decreases |steps|
  {
    steps == [] || (Enabled(s, steps[0]) && Shaped(Next(s, steps[0])) && Legal(Next(s, steps[0]), steps[1..]))
  }

  function Run(s: State, steps: seq<Step>): State
    requires Shaped(s) && Legal(s, steps)
    decreases |steps|
  {
    if steps == [] then s else Run(Next(s, steps[0]), steps[1..])
  }

  lemma {:induction false} RunKeeps(s: State, steps: seq<Step>)
    requires Inv(s) && Legal(s, steps)
    ensures Inv(Run(s, steps))
    decreases |steps|
  {
    if steps != [] {
      StepKeeps(s, steps[0]);
      RunKeeps(Next(s, steps[0]), steps[1..]);
    }
  }

  /** In every run a pushed task is claimed at most once, nothing else is claimed, and until
      destroy resets the list, pushed = queued + claimed. */
  lemma RunAccounts(workers: int, steps: seq<Step>)
    requires Legal(Create(workers), steps)
    ensures var s := Run(Create(workers), steps);
            && NoDuplicates(s.claimed) && (forall t :: t in s.claimed ==> t in s.pushed)
            && (!s.destroyer.Finished? ==> |s.pushed| == |s.tasks| + |s.claimed|)
  {
    CreateInv(workers);
    RunKeeps(Create(workers), steps);
    var s := Run(Create(workers), steps);
    OnceEach(s.claimed, s.pushed);
    assert |multiset(s.pushed)| == |s.pushed| && |multiset(s.tasks) + multiset(s.claimed)| == |s.tasks| + |s.claimed|;
  }

  lemma OnceEach(a: seq<Task>, b: seq<Task>)
    requires multiset(a) <= multiset(b) && NoDuplicates(b)
    ensures NoDuplicates(a) && forall t :: t in a ==> t in b
  {
    forall t | t in a ensures t in b {
      assert t in multiset(a);
    }
    forall i, j | 0 <= i < j < |a| ensures a[i] != a[j] {
      if a[i] == a[j] {
        Twice(a, i, j);
        assert multiset(b)[a[i]] >= 2;
        AtMostOnce(b, a[i]);
      }
    }
  }

  lemma Twice(a: seq<Task>, i: nat, j: nat)
    requires i < j < |a| && a[i] == a[j]
    ensures multiset(a)[a[i]] >= 2
  {
    assert a == a[..i] + [a[i]] + a[i + 1..j] + [a[j]] + a[j + 1..];
  }

  lemma {:induction false} AtMostOnce(b: seq<Task>, t: Task)
    requires NoDuplicates(b)
    ensures multiset(b)[t] <= 1
    decreases |b|
  {
    if b != [] {
      assert b == [b[0]] + b[1..];
      AtMostOnce(b[1..], t);
      if b[0] == t {
        assert t !in b[1..];
      }
    }
  }

  /** While the pool is in use, queued tasks never meet a pool that is all asleep, unless the
      push that queued the last one is about to signal. */
  lemma RunNeverSleepsOnTasks(workers: int, steps: seq<Step>)
    requires Legal(Create(workers), steps)
    ensures var s := Run(Create(workers), steps);
            s.tasks != [] && s.destroyer.NotCalled? && !s.pusher.Signalling? ==>
              exists i :: 0 <= i < |s.pc| && Alert(s.pc[i])
  {
    CreateInv(workers);
    RunKeeps(Create(workers), steps);
    SameWorkers(Create(workers), steps);
  }

  lemma {:induction false} SameWorkers(s: State, steps: seq<Step>)
    requires Shaped(s) && Legal(s, steps)
    ensures |Run(s, steps).pc| == |s.pc|
    decreases |steps|
  {
    if steps != [] {
      SameWorkers(Next(s, steps[0]), steps[1..]);
    }
  }

  // ---- every claimed task is executed ----

  /** Whether a worker has this task in hand, as a number. */
  function InHand(pc: Pc, task: Task): nat {
    if (pc.Release? || pc.Busy?) && pc.task == task then 1 else 0
  }

  /** How many workers have it. */
  function AllInHand(pcs: seq<Pc>, task: Task): nat {
    if pcs == [] then 0 else InHand(pcs[0], task) + AllInHand(pcs[1..], task)
  }

  lemma {:induction false} InHandUpdate(pcs: seq<Pc>, i: nat, pc: Pc, task: Task)
    requires i < |pcs|
    ensures AllInHand(pcs[i := pc], task) == AllInHand(pcs, task) - InHand(pcs[i], task) + InHand(pc, task)
    decreases |pcs|
  {
    hide InHand;
    if i > 0 {
      assert pcs[i := pc][1..] == pcs[1..][i - 1 := pc];
      InHandUpdate(pcs[1..], i - 1, pc, task);
    } else {
      assert pcs[i := pc][1..] == pcs[1..];
    }
  }

  lemma {:induction false} SameInHand(pcs: seq<Pc>, qcs: seq<Pc>, task: Task)
    requires |pcs| == |qcs| && forall i :: 0 <= i < |pcs| ==> InHand(pcs[i], task) == InHand(qcs[i], task)
    ensures AllInHand(pcs, task) == AllInHand(qcs, task)
    decreases |pcs|
  {
    hide InHand;
    if pcs != [] {
      SameInHand(pcs[1..], qcs[1..], task);
    }
  }

  lemma {:induction false} NothingInHand(pcs: seq<Pc>, task: Task)
    requires forall i :: 0 <= i < |pcs| ==> InHand(pcs[i], task) == 0
    ensures AllInHand(pcs, task) == 0
    decreases |pcs|
  {
    if pcs != [] {
      NothingInHand(pcs[1..], task);
    }
  }

  /** Every claimed task was executed or is in a worker's hand, each as often as it was claimed. */
  ghost predicate Worked(s: State) {
    forall task ::
      multiset(s.claimed)[task] == multiset(s.executed)[task] + AllInHand(s.pc, task)
  }

  lemma WorkWorks(s: State, i: nat)
    requires Shaped(s) && i < |s.pc| && Worked(s)
    ensures Worked(WorkStep(s, i))
  {
    hide AllInHand, WorkStep;
    var t := WorkStep(s, i);
    forall task ensures multiset(t.claimed)[task] == multiset(t.executed)[task] + AllInHand(t.pc, task) {
      WorkWorksFor(s, i, task);
    }
  }

  lemma WorkWorksFor(s: State, i: nat, task: Task)
    requires Shaped(s) && i < |s.pc|
    requires multiset(s.claimed)[task] == multiset(s.executed)[task] + AllInHand(s.pc, task)
    ensures var t := WorkStep(s, i);
            multiset(t.claimed)[task] == multiset(t.executed)[task] + AllInHand(t.pc, task)
  {
    hide AllInHand, InHand, WorkStep;
    var t := WorkStep(s, i);
    WorkMoves(s, i, task);
    InHandUpdate(s.pc, i, t.pc[i], task);
    if s.pc[i].Take? && s.tasks != [] {
      OneMore(s.claimed, s.tasks[0], task);
    } else if s.pc[i].Busy? {
      OneMore(s.executed, s.pc[i].task, task);
    }
  }

  /** Which lists a step of a worker extends, and what it has in hand before and after. */
  lemma WorkMoves(s: State, i: nat, task: Task)
    requires Shaped(s) && i < |s.pc|
    ensures var t := WorkStep(s, i);
            && |t.pc| == |s.pc| && t.pc == s.pc[i := t.pc[i]]
            && var had, has := InHand(s.pc[i], task), InHand(t.pc[i], task);
               if s.pc[i].Take? && s.tasks != [] then
                 && t.claimed == s.claimed + [s.tasks[0]] && t.executed == s.executed
                 && had == 0 && has == (if task == s.tasks[0] then 1 else 0)
               else if s.pc[i].Busy? then
                 && t.claimed == s.claimed && t.executed == s.executed + [s.pc[i].task]
                 && had == (if task == s.pc[i].task then 1 else 0) && has == 0
               else t.claimed == s.claimed && t.executed == s.executed && has == had
  {
  }

  lemma OneMore(ts: seq<Task>, x: Task, task: Task)
    ensures multiset(ts + [x])[task] == multiset(ts)[task] + (if task == x then 1 else 0)
  {
  }

  lemma StepWorks(s: State, step: Step)
    requires Shaped(s) && Enabled(s, step) && Worked(s)
    ensures Worked(Next(s, step))
  {
    hide AllInHand, WorkStep;
    if step.Work? {
      WorkWorks(s, step.i);
    } else {
      var t := Next(s, step);
      forall task ensures AllInHand(t.pc, task) == AllInHand(s.pc, task) {
        SameInHand(s.pc, t.pc, task);
      }
    }
  }

  lemma {:induction false} RunWorks(s: State, steps: seq<Step>)
    requires Shaped(s) && Legal(s, steps) && Worked(s)
    ensures Worked(Run(s, steps))
    decreases |steps|
  {
    hide Next, Worked;
    if steps != [] {
      StepWorks(s, steps[0]);
      RunWorks(Next(s, steps[0]), steps[1..]);
    }
  }

  lemma CreateWorks(workers: int)
    ensures Worked(Create(workers))
  {
    var s := Create(workers);
    forall task ensures AllInHand(s.pc, task) == 0 {
      NothingInHand(s.pc, task);
    }
  }

  /** In every run no task is executed twice, only pushed tasks are executed, and what is claimed
      is executed or in a worker's hand; once all workers are done it is all executed. */
  lemma RunExecutes(workers: int, steps: seq<Step>)
    requires Legal(Create(workers), steps)
    ensures var s := Run(Create(workers), steps);
            && Worked(s)
            && NoDuplicates(s.executed) && (forall t :: t in s.executed ==> t in s.pushed)
            && ((forall i :: 0 <= i < |s.pc| ==> s.pc[i].Done?) ==> multiset(s.executed) == multiset(s.claimed))
  {
    hide Legal, Next;
    var s := Run(Create(workers), steps);
    CreateWorks(workers);
    RunWorks(Create(workers), steps);
    CreateInv(workers);
    RunKeeps(Create(workers), steps);
    assert multiset(s.executed) <= multiset(s.claimed) by {
      assert forall task :: multiset(s.executed)[task] <= multiset(s.claimed)[task];
    }
    OnceEach(s.executed, s.pushed);
    if forall i :: 0 <= i < |s.pc| ==> s.pc[i].Done? {
      forall task ensures multiset(s.executed)[task] == multiset(s.claimed)[task] {
        NothingInHand(s.pc, task);
      }
    }
  }

  // ---- the newest task first ----

  /** x was pushed before y. */
  predicate Before(pushed: seq<Task>, x: Task, y: Task) {
    exists a, b :: 0 <= a < b < |pushed| && pushed[a] == x && pushed[b] == y
  }

  predicate NewestFirst(tasks: seq<Task>, pushed: seq<Task>) {
    && (forall i :: 0 <= i < |tasks| ==> tasks[i] in pushed)
    && forall i, j :: 0 <= i < j < |tasks| ==> Before(pushed, tasks[j], tasks[i])
  }

  /** The list holds the newest task first, and so does what a push has read of it. */
  predicate Stacked(s: State) {
    NewestFirst(s.tasks, s.pushed) && (s.pusher.Publishing? ==> NewestFirst(s.pusher.rest, s.pushed))
  }

  lemma OneNewer(tasks: seq<Task>, pushed: seq<Task>, task: Task)
    requires NewestFirst(tasks, pushed)
    ensures NewestFirst([task] + tasks, pushed + [task])
  {
    var ts, ps := [task] + tasks, pushed + [task];
    forall i, j | 0 <= i < j < |ts| ensures Before(ps, ts[j], ts[i]) {
      if i == 0 {
        var a :| 0 <= a < |pushed| && pushed[a] == tasks[j - 1];
        assert ps[a] == ts[j] && ps[|pushed|] == ts[0];
      } else {
        var a, b :| 0 <= a < b < |pushed| && pushed[a] == tasks[j - 1] && pushed[b] == tasks[i - 1];
        assert ps[a] == ts[j] && ps[b] == ts[i];
      }
    }
  }

  lemma StepStacks(s: State, step: Step)
    requires Shaped(s) && Enabled(s, step) && Stacked(s)
    ensures Stacked(Next(s, step))
  {
    hide Before;
    if step.PushOn? && s.pusher.Publishing? {
      OneNewer(s.pusher.rest, s.pushed, s.pusher.task);
    }
  }

  lemma {:induction false} RunStacks(s: State, steps: seq<Step>)
    requires Shaped(s) && Legal(s, steps) && Stacked(s)
    ensures Stacked(Run(s, steps))
    decreases |steps|
  {
    hide Next, Stacked;
    if steps != [] {
      StepStacks(s, steps[0]);
      RunStacks(Next(s, steps[0]), steps[1..]);
    }
  }

  /** In every run a worker claims the newest of the queued tasks, and leaves the others. */
  lemma ClaimsNewest(workers: int, steps: seq<Step>, i: nat)
    requires Legal(Create(workers), steps)
    requires var s := Run(Create(workers), steps);
             Shaped(s) && Enabled(s, Work(i)) && s.pc[i].Take?
    ensures var s, t := Run(Create(workers), steps), Next(Run(Create(workers), steps), Work(i));
            && s.tasks != [] && t.pc[i] == Release(s.tasks[0]) && t.claimed == s.claimed + [s.tasks[0]]
            && t.tasks == s.tasks[1..] && forall u :: u in t.tasks ==> Before(s.pushed, u, s.tasks[0])
  {
    hide Legal, Before;
    var s := Run(Create(workers), steps);
    CreateInv(workers);
    RunKeeps(Create(workers), steps);
    RunStacks(Create(workers), steps);
    assert Standing(s, i);
    var t := Next(s, Work(i));
    forall u | u in t.tasks ensures Before(s.pushed, u, s.tasks[0]) {
      var j :| 0 <= j < |t.tasks| && t.tasks[j] == u;
      assert s.tasks[j + 1] == u;
    }
  }

  // ---- after destroy's broadcast ----

  /** How many steps a worker has left once its flag is set. */
  function Rank(pc: Pc): nat {
    match pc
    case Done => 0
    case Quit => 1
    case Decide => 2
    case CheckTerm => 3
    case Check => 4
    case Idle => 5
    case Busy(_) => 6
    case Release(_) => 7
    case Woken => 5
    case _ => 8
  }

  function Total(pcs: seq<Pc>): nat {
    if pcs == [] then 0 else Rank(pcs[0]) + Total(pcs[1..])
  }

  lemma {:induction false} TotalUpdate(pcs: seq<Pc>, i: nat, pc: Pc)
    requires i < |pcs|
    ensures Total(pcs[i := pc]) == Total(pcs) - Rank(pcs[i]) + Rank(pc)
    decreases |pcs|
  {
    if i > 0 {
      assert pcs[i := pc][1..] == pcs[1..][i - 1 := pc];
      TotalUpdate(pcs[1..], i - 1, pc);
    } else {
      assert pcs[i := pc][1..] == pcs[1..];
    }
  }

  lemma AfterBroadcastStep(s: State, step: Step)
    requires Inv(s) && Announced(s.destroyer) && Enabled(s, step)
    ensures Announced(Next(s, step).destroyer) && Next(s, step).claimed == s.claimed
    ensures step.Work? ==> Total(Next(s, step).pc) < Total(s.pc)
    ensures !step.Work? ==> Next(s, step).pc == s.pc
  {
    NobodyAsleep(s);
    if step.Work? {
      TotalUpdate(s.pc, step.i, WorkStep(s, step.i).pc[step.i]);
    } else {
      assert step.Destroy? ==> Next(s, step).pc == s.pc;
    }
  }

  lemma NobodyAsleep(s: State)
    requires Inv(s) && Announced(s.destroyer)
    ensures forall i :: 0 <= i < |s.pc| ==> !s.pc[i].Blocked? && !s.pc[i].Take?
  {
    forall i | 0 <= i < |s.pc| ensures !s.pc[i].Blocked? && !s.pc[i].Take? {
      assert Standing(s, i);
    }
  }

  function WorkSteps(steps: seq<Step>): nat {
    if steps == [] then 0 else (if steps[0].Work? then 1 else 0) + WorkSteps(steps[1..])
  }

  /** After the broadcast no worker is blocked or blocks again and none takes a task, so the
      unlocked reset of the list meets no worker; and the workers have boundedly many steps
      left. */
  lemma {:induction false} AfterBroadcast(s: State, steps: seq<Step>)
    requires Inv(s) && Announced(s.destroyer) && Legal(s, steps)
    ensures var t := Run(s, steps);
            && Announced(t.destroyer) && t.claimed == s.claimed
            && (forall i :: 0 <= i < |t.pc| ==> !t.pc[i].Blocked? && !t.pc[i].Take?)
            && Total(t.pc) + WorkSteps(steps) <= Total(s.pc)
    decreases |steps|
  {
    if steps == [] {
      NobodyAsleep(s);
    } else {
      StepKeeps(s, steps[0]);
      AfterBroadcastStep(s, steps[0]);
      AfterBroadcast(Next(s, steps[0]), steps[1..]);
    }
  }

  /** The reset empties the list and claims nothing. It is lost, with the tasks it was to
      drop back in the list, exactly when a push had read the list and not yet stored its new
      head; in every other state the list stays empty until another push stores a head. */
  lemma ResetAgainstPush(s: State, k: nat)
    requires Inv(s) && s.destroyer.Resetting? && Enabled(s, PushOn(k))
    ensures var t := Next(s, Destroy);
            && t.tasks == [] && t.claimed == s.claimed && Enabled(t, PushOn(k))
            && (if s.pusher.Publishing? then
                  Next(t, PushOn(k)).tasks == Next(s, PushOn(k)).tasks == [s.pusher.task] + s.tasks
                else Next(t, PushOn(k)).tasks == [])
  {
    NobodyAsleep(s);
  }

  /** The run `steps` can be taken from s and ends in t. */
  predicate Leads(s: State, steps: seq<Step>, t: State) {
    Shaped(s) && Legal(s, steps) && Run(s, steps) == t && Shaped(t)
  }

  lemma NoSteps(s: State)
    requires Shaped(s)
    ensures Leads(s, [], s)
  {
  }

  lemma {:induction false} LeadsOn(s: State, steps: seq<Step>, t: State, step: Step, u: State)
    requires Leads(s, steps, t) && Enabled(t, step) && Next(t, step) == u && Shaped(u)
    ensures Leads(s, steps + [step], u)
    decreases |steps|
  {
    if steps == [] {
      assert [step][1..] == [];
      assert [] + [step] == [step];
    } else {
      assert (steps + [step])[1..] == steps[1..] + [step];
      LeadsOn(Next(s, steps[0]), steps[1..], t, step, u);
    }
  }

  /** The five steps of a push that nothing disturbs. */
  function PushSteps(task: Task): seq<Step> {
    [] + [Push(task)] + [PushOn(0)] + [PushOn(0)] + [PushOn(0)] + [PushOn(0)]
  }

  lemma PushRuns(s: State, task: Task)
    requires Shaped(s) && s.lock.Free? && s.pusher.Absent? && task !in s.pushed && !AnyBlocked(s)
    ensures Leads(s, PushSteps(task), s.(tasks := [task] + s.tasks, pushed := s.pushed + [task]))
  {
    hide Leads;
    var s1 := s.(lock := ByPusher, pusher := Linking(task));
    var s2 := s1.(pusher := Publishing(task, s.tasks));
    var s3 := s2.(tasks := [task] + s.tasks, pushed := s.pushed + [task], pusher := Signalling);
    var s4 := s3.(pusher := Leaving);
    NoSteps(s);
    LeadsOn(s, [], s, Push(task), s1);
    LeadsOn(s, [] + [Push(task)], s1, PushOn(0), s2);
    LeadsOn(s, [] + [Push(task)] + [PushOn(0)], s2, PushOn(0), s3);
    assert !AnyBlocked(s3);
    LeadsOn(s, [] + [Push(task)] + [PushOn(0)] + [PushOn(0)], s3, PushOn(0), s4);
    LeadsOn(s, [] + [Push(task)] + [PushOn(0)] + [PushOn(0)] + [PushOn(0)], s4, PushOn(0),
            s.(tasks := [task] + s.tasks, pushed := s.pushed + [task]));
  }

  /** Destroy up to its reset, with one worker that is not blocked. */
  function DestroySteps(): seq<Step> { [] + [Destroy] + [Destroy] + [Destroy] + [Destroy] + [Destroy] + [Destroy] }

  lemma DestroyRuns(s: State)
    requires Shaped(s) && s.pc == [Idle] && s.terminate == [false] && s.lock.Free? && s.destroyer.NotCalled?
    ensures Leads(s, DestroySteps(), s.(terminate := [true], destroyer := Resetting))
  {
    hide Leads;
    var d := [Destroy];
    var s1 := s.(destroyer := Setting(0));
    var s2 := s1.(terminate := [true], destroyer := Setting(1));
    var s3 := s2.(destroyer := Locking);
    var s4 := s3.(destroyer := Broadcasting, lock := ByDestroyer);
    var s5 := s4.(destroyer := Unlocking);
    NoSteps(s);
    LeadsOn(s, [], s, Destroy, s1);
    LeadsOn(s, [] + d, s1, Destroy, s2);
    LeadsOn(s, [] + d + d, s2, Destroy, s3);
    LeadsOn(s, [] + d + d + d, s3, Destroy, s4);
    LeadsOn(s, [] + d + d + d + d, s4, Destroy, s5);
    LeadsOn(s, [] + d + d + d + d + d, s5, Destroy, s.(terminate := [true], destroyer := Resetting));
  }

  /** A push reads the list, destroy resets it, and the push stores its head. */
  function RaceSteps(task: Task): seq<Step> { [] + [Push(task)] + [PushOn(0)] + [Destroy] + [PushOn(0)] }

  lemma RaceRuns(s: State, task: Task)
    requires Shaped(s) && s.lock.Free? && s.pusher.Absent? && task !in s.pushed && s.destroyer.Resetting?
    ensures Leads(s, RaceSteps(task), s.(tasks := [task] + s.tasks, pushed := s.pushed + [task],
                                         lock := ByPusher, pusher := Signalling, destroyer := Finished))
  {
    hide Leads;
    var s1 := s.(lock := ByPusher, pusher := Linking(task));
    var s2 := s1.(pusher := Publishing(task, s.tasks));
    var s3 := s2.(tasks := [], destroyer := Finished);
    NoSteps(s);
    LeadsOn(s, [], s, Push(task), s1);
    LeadsOn(s, [] + [Push(task)], s1, PushOn(0), s2);
    LeadsOn(s, [] + [Push(task)] + [PushOn(0)], s2, Destroy, s3);
    LeadsOn(s, [] + [Push(task)] + [PushOn(0)] + [Destroy], s3, PushOn(0),
            s.(tasks := [task] + s.tasks, pushed := s.pushed + [task],
               lock := ByPusher, pusher := Signalling, destroyer := Finished));
  }

  lemma {:induction false} LeadsConcat(s: State, a: seq<Step>, t: State, b: seq<Step>, u: State)
    requires Leads(s, a, t) && Leads(t, b, u)
    ensures Leads(s, a + b, u)
    decreases |a|
  {
    if a == [] {
      assert a + b == b;
    } else {
      assert (a + b)[1..] == a[1..] + b;
      LeadsConcat(Next(s, a[0]), a[1..], t, b, u);
    }
  }

  /** A run from creation, with one worker that never moves: task 7 is pushed, destroy goes as
      far as its reset, and the reset falls into a push of task 5. Destroy ends with both tasks
      in the list. */
  lemma ResetIsLost() returns (s: State)
    ensures Leads(Create(1), PushSteps(7) + DestroySteps() + RaceSteps(5), s)
    ensures s.destroyer.Finished? && s.tasks == [5, 7] && s.claimed == []
  {
    hide Leads, PushSteps, DestroySteps, RaceSteps;
    var s0 := Create(1);
    assert s0.pc == [Idle] && s0.terminate == [false];
    PushRuns(s0, 7);
    var s1 := s0.(tasks := [7] + s0.tasks, pushed := s0.pushed + [7]);
    DestroyRuns(s1);
    var s2 := s1.(terminate := [true], destroyer := Resetting);
    RaceRuns(s2, 5);
    s := s2.(tasks := [5] + s2.tasks, pushed := s2.pushed + [5],
             lock := ByPusher, pusher := Signalling, destroyer := Finished);
    LeadsConcat(s0, PushSteps(7), s1, DestroySteps(), s2);
    LeadsConcat(s0, PushSteps(7) + DestroySteps(), s2, RaceSteps(5), s);
  }

  /** Until every worker is done, one of them can move, or destroy or a push that has the
      lock can. */
  lemma SomeoneCanMove(s: State)
    requires Inv(s) && Announced(s.destroyer) && exists i :: 0 <= i < |s.pc| && !s.pc[i].Done?
    ensures || (exists i: nat :: i < |s.pc| && Enabled(s, Work(i)))
            || Enabled(s, Destroy) || Enabled(s, PushOn(0))
  {
    if s.lock.Held? {
      assert InLock(s.pc[s.lock.worker]) && Enabled(s, Work(s.lock.worker));
    } else if s.lock.Free? {
      var i :| 0 <= i < |s.pc| && !s.pc[i].Done?;
      assert Standing(s, i) && Enabled(s, Work(i));
    } else if s.lock.ByDestroyer? {
      assert Enabled(s, Destroy);
    } else {
      NobodyAsleep(s);
      assert Enabled(s, PushOn(0));
    }
  }

  /** So when nothing can move after the broadcast, all workers are done and every task that was
      claimed has been executed. */
  lemma StuckIsDone(workers: int, steps: seq<Step>)
    requires Legal(Create(workers), steps)
    requires var s := Run(Create(workers), steps);
             && Shaped(s) && Announced(s.destroyer) && !Enabled(s, Destroy) && !Enabled(s, PushOn(0))
             && forall i: nat :: i < |s.pc| ==> !Enabled(s, Work(i))
    ensures var s := Run(Create(workers), steps);
            && (forall i :: 0 <= i < |s.pc| ==> s.pc[i].Done?)
            && multiset(s.executed) == multiset(s.claimed)
  {
    hide Legal, Next, Enabled;
    var s := Run(Create(workers), steps);
    CreateInv(workers);
    RunKeeps(Create(workers), steps);
    if exists i :: 0 <= i < |s.pc| && !s.pc[i].Done? {
      SomeoneCanMove(s);
    }
    RunExecutes(workers, steps);
  }
}
