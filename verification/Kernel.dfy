/** threads/thread.cc, threads/scheduler.cc and threads/synch.cc: threads on one processor, and the
    semaphores that they and the interrupt handlers use. A step is what happens between interrupts going
    off and coming back on, or up to a context switch. */
module Kernels {
  import opened Collections

  datatype Status = Running | Ready | Blocked

  /** What a thread is in the middle of: its own work, `Semaphore::P` (asleep in it, or woken and about to
      test the value again), or `Finish`. */
  datatype Phase = Computing | InP(s: nat) | Finishing

  datatype Thread = Thread(status: Status, phase: Phase)

  /** A semaphore, with its first value and how often `P` and `V` have been done on it. */
  datatype Semaphore = Semaphore(value: nat, queue: seq<nat>, initial: nat, ps: nat, vs: nat)

  /** `current` is the running thread, or the one that is in the loop of `Sleep` waiting for another to
      run; `resuming` says that a switch has been made and the thread switched to has not looked at
      `toBeDestroyed` yet. */
  datatype Kernel = Kernel(
    current: nat, threads: map<nat, Thread>, readyList: seq<nat>,
    toBeDestroyed: set<nat>, resuming: bool, deleted: set<nat>,
    semaphores: map<nat, Semaphore>)

  datatype Step =
    | Fork(t: nat)
    | P(s: nat)
    | V(s: nat)
    | Yield
    | Finish
    | Dispatch
    | Resume

  predicate Here(k: Kernel, status: Status) {
    k.current in k.threads && k.threads[k.current].status == status
  }

  predicate Enabled(k: Kernel, step: Step) {
    match step
    case Fork(t) => !k.resuming && Here(k, Running) && k.threads[k.current].phase.Computing?
                    && t !in k.threads && t !in k.deleted
    case P(s) => !k.resuming && Here(k, Running) && s in k.semaphores
                 && (k.threads[k.current].phase.Computing? || k.threads[k.current].phase == InP(s))
    // by the running thread, or by an interrupt handler at any tick or while the machine idles
    case V(s) => !k.resuming && s in k.semaphores
    case Yield => !k.resuming && Here(k, Running) && k.threads[k.current].phase.Computing? && k.readyList != []
    case Finish => !k.resuming && Here(k, Running) && k.threads[k.current].phase.Computing?
    case Dispatch => !k.resuming && k.current in k.threads && !Here(k, Running) && k.readyList != []
    case Resume => k.resuming
  }

  /** `Scheduler::ReadyToRun`. */
  function ReadyToRun(k: Kernel, t: nat): Kernel {
    if t in k.threads then
      k.(threads := k.threads[t := k.threads[t].(status := Ready)], readyList := k.readyList + [t])
    else k
  }

  /** `Scheduler::FindNextToRun` on a ready list that is not empty: the state without the thread. */
  function Taken(k: Kernel): Kernel
    requires k.readyList != []
  {
    k.(readyList := k.readyList[1..])
  }

  /** `Scheduler::Run`, up to the switch. */
  function Run(k: Kernel, next: nat, finishing: bool): Kernel {
    if next !in k.threads then k
    else
      k.(toBeDestroyed := if finishing then k.toBeDestroyed + {k.current} else k.toBeDestroyed,
         current := next, threads := k.threads[next := k.threads[next].(status := Running)], resuming := true)
  }

  function Next(k: Kernel, step: Step): Kernel
    requires Enabled(k, step)
  {
    match step
    case Fork(t) => k.(threads := k.threads[t := Thread(Ready, Computing)], readyList := k.readyList + [t])
    case P(s) =>
      var sem := k.semaphores[s];
      if sem.value == 0 then
        k.(semaphores := k.semaphores[s := sem.(queue := sem.queue + [k.current])],
           threads := k.threads[k.current := Thread(Blocked, InP(s))])
      else
        k.(semaphores := k.semaphores[s := sem.(value := sem.value - 1, ps := sem.ps + 1)],
           threads := k.threads[k.current := Thread(Running, Computing)])
    case V(s) =>
      var sem := k.semaphores[s];
      if sem.queue == [] then k.(semaphores := k.semaphores[s := sem.(value := sem.value + 1, vs := sem.vs + 1)])
      else
        ReadyToRun(k.(semaphores := k.semaphores[s := sem.(value := sem.value + 1, vs := sem.vs + 1,
                                                                queue := sem.queue[1..])]),
                   sem.queue[0])
    case Yield => Run(ReadyToRun(Taken(k), k.current), k.readyList[0], false)
    case Finish => k.(threads := k.threads[k.current := Thread(Blocked, Finishing)])
    case Dispatch => Run(Taken(k), k.readyList[0], k.threads[k.current].phase.Finishing?)
    case Resume =>
      k.(threads := map t | t in k.threads && t !in k.toBeDestroyed :: k.threads[t],
         deleted := k.deleted + k.toBeDestroyed, toBeDestroyed := {}, resuming := false)
  }

  // ---------- what holds in every state ----------

  /** The ready list holds the ready threads, each once; only the current thread runs. */
  ghost predicate Scheduled(k: Kernel) {
    && k.current in k.threads
    && NoRepeats(k.readyList)
    && (forall t :: t in k.readyList <==> t in k.threads && k.threads[t].status.Ready?)
    && (forall t :: t in k.threads && k.threads[t].status.Running? ==> t == k.current)
    && (k.resuming ==> Here(k, Running))
  }

  /** A blocked thread sleeps on one semaphore or is finishing, and nothing else does either. */
  ghost predicate Sleeping(k: Kernel) {
    && (forall s :: s in k.semaphores ==> NoRepeats(k.semaphores[s].queue))
    && (forall s, t {:trigger t in k.semaphores[s].queue} :: s in k.semaphores && t in k.semaphores[s].queue ==>
          t in k.threads && k.threads[t] == Thread(Blocked, InP(s)))
    && (forall t :: t in k.threads && k.threads[t].phase.InP? ==> k.threads[t].phase.s in k.semaphores)
    && (forall t :: t in k.threads && k.threads[t].status.Blocked? ==>
          || k.threads[t].phase.Finishing?
          || (k.threads[t].phase.InP? && t in k.semaphores[k.threads[t].phase.s].queue))
  }

  /** A finishing thread is blocked for good; it is the current one until it is to be destroyed, which no
      more than one thread ever is, and none but right after a switch. */
  ghost predicate Ending(k: Kernel) {
    && (forall t :: t in k.threads && k.threads[t].phase.Finishing? ==>
          k.threads[t].status.Blocked? && (t == k.current || t in k.toBeDestroyed))
    && (forall t :: t in k.toBeDestroyed ==> t in k.threads && k.threads[t].phase.Finishing? && t != k.current)
    && |k.toBeDestroyed| <= 1
    && (!k.resuming ==> k.toBeDestroyed == {})
    && (forall t :: t in k.deleted ==> t !in k.threads)
  }

  /** The threads that have been woken from a semaphore and have not tested it again. */
  function Woken(threads: map<nat, Thread>, s: nat): set<nat> {
    set t | t in threads && threads[t].phase == InP(s) && !threads[t].status.Blocked?
  }

  /** A semaphore's value is its first one plus the `V`s less the `P`s; and where threads sleep on it, it
      is no more than the number of woken ones, even if others take the value first. */
  ghost predicate Counted(sem: Semaphore, woken: nat) {
    && sem.value + sem.ps == sem.initial + sem.vs
    && (sem.queue != [] ==> sem.value <= woken)
  }

  ghost predicate AllCounted(k: Kernel) {
    forall s :: s in k.semaphores ==> Counted(k.semaphores[s], |Woken(k.threads, s)|)
  }

  ghost predicate Inv(k: Kernel) {
    Scheduled(k) && Sleeping(k) && Ending(k) && AllCounted(k)
  }

  // One lemma for the steps of a running thread, one for `V`, one for the switches and what follows them.

  lemma RunningKeeps(k: Kernel, step: Step)
    requires Scheduled(k) && Sleeping(k) && Ending(k) && Enabled(k, step) && (step.Fork? || step.Finish?)
    ensures Scheduled(Next(k, step)) && Sleeping(Next(k, step)) && Ending(Next(k, step))
  {
    if step.Fork? {
      NoRepeatsParts(k.readyList, step.t);
    }
  }

  lemma PKeeps(k: Kernel, step: Step)
    requires Scheduled(k) && Sleeping(k) && Ending(k) && Enabled(k, step) && step.P?
    ensures Scheduled(Next(k, step)) && Ending(Next(k, step))
  {
  }

  lemma PKeepsSleeping(k: Kernel, step: Step)
    requires Scheduled(k) && Sleeping(k) && Enabled(k, step) && step.P?
    ensures Sleeping(Next(k, step))
  {
    NoRepeatsParts(k.semaphores[step.s].queue, k.current);
    forall s | s in k.semaphores ensures k.current !in k.semaphores[s].queue {
    }
  }

  lemma VKeeps(k: Kernel, step: Step)
    requires Scheduled(k) && Sleeping(k) && Ending(k) && Enabled(k, step) && step.V?
    ensures Scheduled(Next(k, step)) && Sleeping(Next(k, step)) && Ending(Next(k, step))
  {
    var queue := k.semaphores[step.s].queue;
    if queue != [] {
      assert queue[0] in queue;
      NoRepeatsParts(queue, queue[0]);
      NoRepeatsParts(k.readyList, queue[0]);
    }
  }

  lemma YieldKeeps(k: Kernel, step: Step)
    requires Scheduled(k) && Sleeping(k) && Ending(k) && Enabled(k, step) && step.Yield?
    ensures Scheduled(Next(k, step)) && Sleeping(Next(k, step)) && Ending(Next(k, step))
  {
    assert k.readyList[0] in k.readyList;
    NoRepeatsParts(k.readyList, k.current);
    NoRepeatsParts(k.readyList[1..], k.current);
  }

  lemma DispatchKeeps(k: Kernel, step: Step)
    requires Scheduled(k) && Sleeping(k) && Ending(k) && Enabled(k, step) && step.Dispatch?
    ensures Scheduled(Next(k, step)) && Sleeping(Next(k, step)) && Ending(Next(k, step))
  {
    assert k.readyList[0] in k.readyList;
    NoRepeatsParts(k.readyList, k.current);
  }

  lemma ResumeKeeps(k: Kernel, step: Step)
    requires Scheduled(k) && Sleeping(k) && Ending(k) && Enabled(k, step) && step.Resume?
    ensures Scheduled(Next(k, step)) && Sleeping(Next(k, step)) && Ending(Next(k, step))
  {
  }

  /** Changing one thread changes who is woken by that thread at most. */
  lemma WokenUpdate(threads: map<nat, Thread>, t: nat, th: Thread, s: nat)
    ensures var was := t in threads && threads[t].phase == InP(s) && !threads[t].status.Blocked?;
            var is_ := th.phase == InP(s) && !th.status.Blocked?;
            |Woken(threads[t := th], s)| == |Woken(threads, s)| - (if was then 1 else 0) + (if is_ then 1 else 0)
  {
    var is_ := th.phase == InP(s) && !th.status.Blocked?;
    assert Woken(threads[t := th], s) == if is_ then Woken(threads, s) + {t} else Woken(threads, s) - {t};
  }

  lemma CountedKept(k: Kernel, step: Step)
    requires Inv(k) && Enabled(k, step)
    ensures AllCounted(Next(k, step))
  {
    var k' := Next(k, step);
    forall s | s in k'.semaphores ensures Counted(k'.semaphores[s], |Woken(k'.threads, s)|) {
      CountedOne(k, step, s);
    }
  }

  lemma CountedOne(k: Kernel, step: Step, s: nat)
    requires Inv(k) && Enabled(k, step) && s in k.semaphores
    ensures s in Next(k, step).semaphores && Counted(Next(k, step).semaphores[s], |Woken(Next(k, step).threads, s)|)
  {
    match step
    case Fork(t) => WokenUpdate(k.threads, t, Thread(Ready, Computing), s);
    case P(u) => CountedP(k, u, s);
    case V(u) =>
      if k.semaphores[u].queue != [] { assert k.semaphores[u].queue[0] in k.semaphores[u].queue; }
      CountedV(k, u, s);
    case Yield => CountedSwitch(k, k.threads[k.current := k.threads[k.current].(status := Ready)], s);
    case Finish => WokenUpdate(k.threads, k.current, Thread(Blocked, Finishing), s);
    case Dispatch => CountedSwitch(k, k.threads, s);
    case Resume => assert Woken(Next(k, step).threads, s) == Woken(k.threads, s);
  }

  lemma CountedP(k: Kernel, u: nat, s: nat)
    requires Enabled(k, P(u)) && s in k.semaphores && Counted(k.semaphores[s], |Woken(k.threads, s)|)
    ensures Counted(Next(k, P(u)).semaphores[s], |Woken(Next(k, P(u)).threads, s)|)
  {
    WokenUpdate(k.threads, k.current, Thread(Blocked, InP(u)), s);
    WokenUpdate(k.threads, k.current, Thread(Running, Computing), s);
  }

  lemma CountedV(k: Kernel, u: nat, s: nat)
    requires Enabled(k, V(u)) && s in k.semaphores && Counted(k.semaphores[s], |Woken(k.threads, s)|)
    requires k.semaphores[u].queue != [] ==>
      k.semaphores[u].queue[0] in k.threads && k.threads[k.semaphores[u].queue[0]] == Thread(Blocked, InP(u))
    ensures Counted(Next(k, V(u)).semaphores[s], |Woken(Next(k, V(u)).threads, s)|)
  {
    if k.semaphores[u].queue != [] {
      WokenUpdate(k.threads, k.semaphores[u].queue[0], Thread(Ready, InP(u)), s);
    }
  }

  /** A switch wakes no one from a semaphore: the current thread stays as it is or goes back to the ready
      list, and the next one comes from there. */
  lemma CountedSwitch(k: Kernel, mid: map<nat, Thread>, s: nat)
    requires Scheduled(k) && k.readyList != []
    requires mid == k.threads ||
      (Here(k, Running) && mid == k.threads[k.current := k.threads[k.current].(status := Ready)])
    ensures k.readyList[0] in mid
    ensures |Woken(mid[k.readyList[0] := mid[k.readyList[0]].(status := Running)], s)| == |Woken(k.threads, s)|
  {
    var next := k.readyList[0];
    assert next in k.readyList;
    WokenUpdate(mid, next, mid[next].(status := Running), s);
    WokenUpdate(k.threads, k.current, k.threads[k.current].(status := Ready), s);
  }

  /** The front of the ready list can be run, and a running thread is not on it. */
  lemma NextIsReady(k: Kernel)
    requires Inv(k) && k.readyList != []
    ensures k.readyList[0] in k.threads
    ensures Here(k, Running) ==> k.current !in k.readyList
  {
    assert k.readyList[0] in k.readyList;
  }

  /** A running thread is on no semaphore's queue. */
  lemma RunningIsAwake(k: Kernel, s: nat)
    requires Inv(k) && s in k.semaphores && Here(k, Running)
    ensures k.current !in k.semaphores[s].queue
  {
  }

  /** The thread that a `V` wakes is not on the ready list yet. */
  lemma FirstSleeps(k: Kernel, s: nat)
    requires Inv(k) && s in k.semaphores && k.semaphores[s].queue != []
    ensures k.semaphores[s].queue[0] in k.threads && k.semaphores[s].queue[0] !in k.readyList
  {
    assert k.semaphores[s].queue[0] in k.semaphores[s].queue;
  }

  lemma NextKeepsInv(k: Kernel, step: Step)
    requires Inv(k) && Enabled(k, step)
    ensures Inv(Next(k, step))
  {
    CountedKept(k, step);
    match step
    case Fork(_) | Finish => RunningKeeps(k, step);
    case P(_) => PKeeps(k, step); PKeepsSleeping(k, step);
    case V(_) => VKeeps(k, step);
    case Yield => YieldKeeps(k, step);
    case Dispatch => DispatchKeeps(k, step);
    case Resume => ResumeKeeps(k, step);
  }

  /** The main thread runs, and every semaphore is new. */
  ghost predicate Init(k: Kernel) {
    && k.threads == map[k.current := Thread(Running, Computing)] && k.readyList == []
    && k.toBeDestroyed == {} && !k.resuming && k.deleted == {}
    && forall s :: s in k.semaphores ==>
         k.semaphores[s] == Semaphore(k.semaphores[s].initial, [], k.semaphores[s].initial, 0, 0)
  }

  ghost predicate AllRun(ks: seq<Kernel>, steps: seq<Step>) {
    && |ks| == |steps| + 1 && Init(ks[0])
    && forall i :: 0 <= i < |steps| ==> Enabled(ks[i], steps[i]) && ks[i + 1] == Next(ks[i], steps[i])
  }

  lemma InitInv(k: Kernel)
    requires Init(k)
    ensures Inv(k)
  {
  }

  /** In every run threads are conserved and the semaphores add up. */
  lemma {:induction false} EveryRun(ks: seq<Kernel>, steps: seq<Step>, n: nat)
    requires AllRun(ks, steps) && n < |ks|
    ensures Inv(ks[n])
  {
    if n == 0 {
      InitInv(ks[0]);
    } else {
      EveryRun(ks, steps, n - 1);
      NextKeepsInv(ks[n - 1], steps[n - 1]);
    }
  }

  /** A thread that has been destroyed never comes back, to be run or to be destroyed again. */
  lemma {:induction false} GoneForGood(ks: seq<Kernel>, steps: seq<Step>, m: nat, n: nat, t: nat)
    requires AllRun(ks, steps) && m <= n < |ks| && t in ks[m].deleted
    ensures t in ks[n].deleted && t !in ks[n].threads && t != ks[n].current && t !in ks[n].toBeDestroyed
  {
    EveryRun(ks, steps, n);
    if m < n {
      GoneForGood(ks, steps, m, n - 1, t);
    }
  }

  predicate Switches(step: Step) {
    step.Yield? || step.Dispatch?
  }

  /** `V` on semaphore `s`, on which a thread sleeps. */
  predicate WakesFrom(k: Kernel, step: Step, s: nat) {
    step == V(s) && s in k.semaphores && k.semaphores[s].queue != []
  }

  /** `later` is `earlier` with at most its first element gone, and at most one more at its end. */
  ghost predicate QueueStep(earlier: seq<nat>, later: seq<nat>, taken: bool) {
    && (taken ==> earlier != [])
    && var rest := if taken then earlier[1..] else earlier;
       rest <= later && |later| <= |rest| + 1
  }

  /** The ready list is served in order: who waits moves up with every switch, and no one overtakes. */
  lemma ReadyInOrder(k: Kernel, step: Step)
    requires Inv(k) && Enabled(k, step)
    ensures QueueStep(k.readyList, Next(k, step).readyList, Switches(step))
    ensures Switches(step) ==> Next(k, step).current == k.readyList[0]
  {
    if step.V? && k.semaphores[step.s].queue != [] {
      assert k.semaphores[step.s].queue[0] in k.semaphores[step.s].queue;
    }
    if Switches(step) {
      assert k.readyList[0] in k.readyList;
    }
  }

  /** So are the semaphores' queues, with every `V`. */
  lemma QueueInOrder(k: Kernel, step: Step, s: nat)
    requires Inv(k) && Enabled(k, step) && s in k.semaphores
    ensures s in Next(k, step).semaphores
    ensures QueueStep(k.semaphores[s].queue, Next(k, step).semaphores[s].queue, WakesFrom(k, step, s))
    ensures WakesFrom(k, step, s) ==> Next(k, step).readyList == k.readyList + [k.semaphores[s].queue[0]]
  {
    if WakesFrom(k, step, s) {
      assert k.semaphores[s].queue[0] in k.semaphores[s].queue;
    }
    if Switches(step) {
      assert k.readyList[0] in k.readyList;
    }
  }

  /** `Run(_, TRUE)` finds `toBeDestroyed` empty, and what `CheckToBeDestroyed` destroys is one finished
      thread that is not running, at most. */
  lemma AssertsHold(k: Kernel, step: Step)
    requires Inv(k) && Enabled(k, step)
    ensures step.Dispatch? && k.threads[k.current].phase.Finishing? ==> k.toBeDestroyed == {}
    ensures step.Resume? ==> Next(k, step).deleted - k.deleted == k.toBeDestroyed && |k.toBeDestroyed| <= 1
                             && k.current !in k.toBeDestroyed
    ensures Next(k, step).current in Next(k, step).threads && Next(k, step).current !in Next(k, step).deleted
  {
    NextKeepsInv(k, step);
    assert forall t :: t in k.toBeDestroyed ==> t !in k.deleted;
  }

  /** While a thread sleeps on a semaphore that has a value left, some woken thread is ready to take it, or
      is just doing so. */
  lemma NobodyForgotten(k: Kernel, s: nat) returns (t: nat)
    requires Inv(k) && s in k.semaphores && k.semaphores[s].queue != [] && k.semaphores[s].value > 0
    ensures t in k.threads && k.threads[t].phase == InP(s) && (t in k.readyList || (t == k.current && Here(k, Running)))
  {
    assert Counted(k.semaphores[s], |Woken(k.threads, s)|);
    assert Woken(k.threads, s) != {};
    t :| t in Woken(k.threads, s);
  }
}
