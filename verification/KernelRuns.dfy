/** Who waits in the kernel, for the processor or on a semaphore, gets its turn in order, over whole runs. */
module KernelRuns {
  import opened Kernels

  /** A queue as it changes over time; `taken[j]` says whether change `j` takes its first element. */
  ghost predicate QueueRun(queues: seq<seq<nat>>, taken: seq<bool>) {
    |queues| == |taken| + 1 && forall j :: 0 <= j < |taken| ==> QueueStep(queues[j], queues[j + 1], taken[j])
  }

  /** How many of the changes from `m` to `n` take an element. */
  function NumTaken(taken: seq<bool>, m: nat, n: nat): nat
    requires m <= n <= |taken|
  {
    if m == n then 0 else NumTaken(taken, m, n - 1) + (if taken[n - 1] then 1 else 0)
  }

  /** Each element taken brings all others up by one place, and nothing else moves them. */
  lemma {:induction false} MovesUp(queues: seq<seq<nat>>, taken: seq<bool>, m: nat, n: nat, i: nat)
    requires QueueRun(queues, taken) && m <= n < |queues| && i < |queues[m]| && NumTaken(taken, m, n) <= i
    ensures var now := i - NumTaken(taken, m, n);
            now < |queues[n]| && queues[n][now] == queues[m][i]
  {
    if m < n {
      MovesUp(queues, taken, m, n - 1, i);
      assert QueueStep(queues[n - 1], queues[n - 1 + 1], taken[n - 1]);
    }
  }

  /** After as many elements as were before it, an element is the first. */
  lemma InFront(queues: seq<seq<nat>>, taken: seq<bool>, m: nat, n: nat, i: nat)
    requires QueueRun(queues, taken) && m <= n < |queues| && i < |queues[m]| && NumTaken(taken, m, n) == i
    ensures queues[n] != [] && queues[n][0] == queues[m][i]
  {
    MovesUp(queues, taken, m, n, i);
  }

  ghost function ReadyLists(ks: seq<Kernel>): (r: seq<seq<nat>>)
    ensures |r| == |ks|
  {
    seq(|ks|, j requires 0 <= j < |ks| => ks[j].readyList)
  }

  ghost function SwitchesOf(steps: seq<Step>): (r: seq<bool>)
    ensures |r| == |steps|
  {
    seq(|steps|, j requires 0 <= j < |steps| => Switches(steps[j]))
  }

  lemma ReadyRun(ks: seq<Kernel>, steps: seq<Step>)
    requires AllRun(ks, steps)
    ensures QueueRun(ReadyLists(ks), SwitchesOf(steps))
  {
    forall j | 0 <= j < |steps|
      ensures QueueStep(ReadyLists(ks)[j], ReadyLists(ks)[j + 1], SwitchesOf(steps)[j])
    {
      EveryRun(ks, steps, j);
      ReadyInOrder(ks[j], steps[j]);
    }
  }

  /** A thread with `i` others before it on the ready list runs after `i` more switches and the next one. */
  lemma RunsInTurn(ks: seq<Kernel>, steps: seq<Step>, m: nat, n: nat, i: nat)
    requires AllRun(ks, steps) && m <= n < |steps| && i < |ks[m].readyList|
    requires NumTaken(SwitchesOf(steps), m, n) == i && Switches(steps[n])
    ensures ks[n + 1].current == ks[m].readyList[i]
  {
    IsFirst(ks, steps, m, n, i, ks[n]);
    SwitchTakesFirst(ks, steps, n, ks[n]);
  }

  lemma IsFirst(ks: seq<Kernel>, steps: seq<Step>, m: nat, n: nat, i: nat, k: Kernel)
    requires AllRun(ks, steps) && m <= n < |steps| && i < |ks[m].readyList| && k == ks[n]
    requires NumTaken(SwitchesOf(steps), m, n) == i
    ensures k.readyList != [] && k.readyList[0] == ks[m].readyList[i]
  {
    var queues := ReadyLists(ks);
    assert queues[m] == ks[m].readyList && queues[n] == k.readyList;
    ReadyRun(ks, steps);
    InFront(queues, SwitchesOf(steps), m, n, i);
  }

  lemma SwitchTakesFirst(ks: seq<Kernel>, steps: seq<Step>, n: nat, k: Kernel)
    requires AllRun(ks, steps) && n < |steps| && k == ks[n] && Switches(steps[n])
    ensures k.readyList != [] && ks[n + 1].current == k.readyList[0]
  {
    EveryRun(ks, steps, n);
    ReadyInOrder(k, steps[n]);
  }

  ghost function QueuesOf(ks: seq<Kernel>, s: nat): (r: seq<seq<nat>>)
    ensures |r| == |ks|
  {
    seq(|ks|, j requires 0 <= j < |ks| => if s in ks[j].semaphores then ks[j].semaphores[s].queue else [])
  }

  ghost function WakeUps(ks: seq<Kernel>, steps: seq<Step>, s: nat): (r: seq<bool>)
    requires |ks| == |steps| + 1
    ensures |r| == |steps|
  {
    seq(|steps|, j requires 0 <= j < |steps| => WakesFrom(ks[j], steps[j], s))
  }

  /** The semaphores are there from the beginning. */
  lemma {:induction false} SameSemaphores(ks: seq<Kernel>, steps: seq<Step>, n: nat)
    requires AllRun(ks, steps) && n < |ks|
    ensures ks[n].semaphores.Keys == ks[0].semaphores.Keys
  {
    if n > 0 {
      SameSemaphores(ks, steps, n - 1);
      KeepsSemaphores(ks[n - 1], steps[n - 1]);
    }
  }

  lemma KeepsSemaphores(k: Kernel, step: Step)
    requires Enabled(k, step)
    ensures Next(k, step).semaphores.Keys == k.semaphores.Keys
  {
  }

  lemma QueueRuns(ks: seq<Kernel>, steps: seq<Step>, s: nat)
    requires AllRun(ks, steps) && s in ks[0].semaphores
    ensures QueueRun(QueuesOf(ks, s), WakeUps(ks, steps, s))
  {
    forall j | 0 <= j < |steps|
      ensures QueueStep(QueuesOf(ks, s)[j], QueuesOf(ks, s)[j + 1], WakeUps(ks, steps, s)[j])
    {
      EveryRun(ks, steps, j);
      SameSemaphores(ks, steps, j);
      QueueInOrder(ks[j], steps[j], s);
    }
  }

  /** A thread with `i` others before it on a semaphore's queue is the one that is made ready after `i` more
      sleepers have been woken, by the next `V`. */
  lemma WokenInTurn(ks: seq<Kernel>, steps: seq<Step>, m: nat, n: nat, i: nat, s: nat)
    requires AllRun(ks, steps) && m <= n < |steps| && s in ks[m].semaphores && i < |ks[m].semaphores[s].queue|
    requires NumTaken(WakeUps(ks, steps, s), m, n) == i && steps[n] == V(s)
    ensures ks[n + 1].readyList == ks[n].readyList + [ks[m].semaphores[s].queue[i]]
  {
    SleepsFirst(ks, steps, m, n, i, s, ks[n]);
    WakesFirst(ks, steps, n, s, ks[n]);
  }

  lemma SleepsFirst(ks: seq<Kernel>, steps: seq<Step>, m: nat, n: nat, i: nat, s: nat, k: Kernel)
    requires AllRun(ks, steps) && m <= n < |steps| && s in ks[m].semaphores && i < |ks[m].semaphores[s].queue|
    requires NumTaken(WakeUps(ks, steps, s), m, n) == i && k == ks[n]
    ensures s in k.semaphores && k.semaphores[s].queue != []
            && k.semaphores[s].queue[0] == ks[m].semaphores[s].queue[i]
  {
    SameSemaphores(ks, steps, m);
    SameSemaphores(ks, steps, n);
    QueueRuns(ks, steps, s);
    var queues := QueuesOf(ks, s);
    assert queues[m] == ks[m].semaphores[s].queue && queues[n] == k.semaphores[s].queue;
    InFront(queues, WakeUps(ks, steps, s), m, n, i);
  }

  lemma WakesFirst(ks: seq<Kernel>, steps: seq<Step>, n: nat, s: nat, k: Kernel)
    requires AllRun(ks, steps) && n < |steps| && k == ks[n] && WakesFrom(k, steps[n], s)
    ensures ks[n + 1].readyList == k.readyList + [k.semaphores[s].queue[0]]
  {
    EveryRun(ks, steps, n);
    QueueInOrder(k, steps[n], s);
  }

  // ---------- a value that is left is taken ----------

  /** `steps`, each one possible in its turn, lead from `k` to `k'`. */
  ghost predicate Leads(k: Kernel, steps: seq<Step>, k': Kernel)
    decreases |steps|
  {
    if steps == [] then k == k'
    else Enabled(k, steps[0]) && Leads(Next(k, steps[0]), steps[1..], k')
  }

  /** Thread `t`, woken from semaphore `s`, runs, or is the `i`th on the ready list, counted from 1. */
  ghost predicate Comes(k: Kernel, s: nat, t: nat, i: nat) {
    && s in k.semaphores && k.semaphores[s].value > 0
    && t in k.threads && k.threads[t].phase == InP(s)
    && if i == 0 then t == k.current && Here(k, Running) else i <= |k.readyList| && k.readyList[i - 1] == t
  }

  /** What the current thread has still to do before the next switch. */
  function Stage(k: Kernel): nat {
    if k.resuming then 2
    else if Here(k, Running) && k.threads[k.current].phase.InP? then 1
    else 0
  }

  /** The step that brings `t` nearer to its test of the value: what a switch has left, the test of another
      thread that is back in `P`, or a switch. */
  function NextFor(k: Kernel): Step {
    if k.resuming then Resume
    else if Here(k, Running) then
      match k.threads[k.current].phase
      case InP(s) => P(s)
      case _ => Yield
    else Dispatch
  }

  ghost predicate Passed(k: Kernel, s: nat, k': Kernel) {
    s in k.semaphores && s in k'.semaphores && k'.semaphores[s].ps == k.semaphores[s].ps + 1
  }

  /** After the step some thread has passed, or `t` is nearer. */
  ghost predicate Nearer(k: Kernel, s: nat, t: nat, i: nat, k': Kernel, j: nat) {
    Passed(k, s, k') || (Comes(k, s, t, i) && Comes(k', s, t, j) && k'.semaphores[s].ps == k.semaphores[s].ps
                         && (j < i || (j == i && Stage(k') < Stage(k))))
  }

  lemma NearerBySwitch(k: Kernel, s: nat, t: nat, i: nat)
    requires Scheduled(k) && Sleeping(k) && Ending(k) && Comes(k, s, t, i) && Switches(NextFor(k))
    ensures i > 0 && Enabled(k, NextFor(k)) && Nearer(k, s, t, i, Next(k, NextFor(k)), i - 1)
  {
    if i > 0 { assert t in k.readyList; }
    if i > 1 { assert k.readyList[0] != t; }
  }

  lemma NearerByStep(k: Kernel, s: nat, t: nat, i: nat)
    requires Scheduled(k) && Sleeping(k) && Ending(k) && Comes(k, s, t, i) && !Switches(NextFor(k))
    ensures Enabled(k, NextFor(k)) && Nearer(k, s, t, i, Next(k, NextFor(k)), i)
  {
    if i > 0 { assert t in k.readyList; }
  }

  lemma ComesNearer(k: Kernel, s: nat, t: nat, i: nat) returns (j: nat)
    requires Inv(k) && Comes(k, s, t, i)
    ensures Enabled(k, NextFor(k)) && Nearer(k, s, t, i, Next(k, NextFor(k)), j)
  {
    if Switches(NextFor(k)) {
      NearerBySwitch(k, s, t, i);
      j := i - 1;
    } else {
      NearerByStep(k, s, t, i);
      j := i;
    }
  }

  lemma {:induction false} Passes(k: Kernel, s: nat, t: nat, i: nat) returns (steps: seq<Step>, k': Kernel)
    requires Inv(k) && Comes(k, s, t, i)
    ensures Leads(k, steps, k') && Passed(k, s, k')
    decreases i, Stage(k)
  {
    var j := ComesNearer(k, s, t, i);
    var step := NextFor(k);
    var next := Next(k, step);
    if Passed(k, s, next) {
      steps, k' := [], next;
    } else {
      NextKeepsInv(k, step);
      steps, k' := Passes(next, s, t, j);
    }
    assert ([step] + steps)[1..] == steps;
    steps := [step] + steps;
  }

  /** While a thread sleeps on a semaphore that has a value left, steps are possible that end with a thread
      past `P`: the woken one, or another that comes before it. */
  lemma CanPass(k: Kernel, s: nat) returns (steps: seq<Step>, k': Kernel)
    requires Inv(k) && s in k.semaphores && k.semaphores[s].queue != [] && k.semaphores[s].value > 0
    ensures Leads(k, steps, k') && Passed(k, s, k')
  {
    var t := NobodyForgotten(k, s);
    var i := 0;
    if t in k.readyList {
      var j :| 0 <= j < |k.readyList| && k.readyList[j] == t;
      i := j + 1;
    }
    steps, k' := Passes(k, s, t, i);
  }
}
