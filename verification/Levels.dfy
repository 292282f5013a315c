/** `Interrupt::SetLevel` on the kernel. There is one interrupt level, but each thread saves it before it may
    be switched away from, and brings it back when it goes on: to its user the level is the thread's own. */
module Levels {
  import K = Kernels

  /** `saved` has the `oldLevel` of every thread in the middle of `P` or `Yield`; a thread that has not
      begun yet is going to enable interrupts. */
  datatype State = State(kernel: K.Kernel, on: bool, saved: map<nat, bool>)

  datatype Step = Do(step: K.Step) | SetLevel(on: bool)

  /** Thread `t` runs, and is in the middle of nothing. */
  predicate Going(s: State, t: nat) {
    && s.kernel.current == t && !s.kernel.resuming && K.Here(s.kernel, K.Running)
    && s.kernel.threads[t].phase.Computing?
  }

  predicate Enabled(s: State, step: Step) {
    match step
    case Do(step) => K.Enabled(s.kernel, step)
    case SetLevel(_) => Going(s, s.kernel.current)
  }

  /** The level that thread `t` has, or will have once it goes on. */
  function LevelOf(s: State, t: nat): bool {
    if Going(s, t) then s.on else t in s.saved && s.saved[t]
  }

  function Next(s: State, step: Step): State
    requires Enabled(s, step)
  {
    match step
    case SetLevel(on) => s.(on := on)
    case Do(step) =>
      var k, me := K.Next(s.kernel, step), s.kernel.current;
      match step
      case Fork(t) => State(k, s.on, s.saved[t := true])
      case P(sem) =>
        var oldLevel := LevelOf(s, me);
        State(k, s.kernel.semaphores[sem].value > 0 && oldLevel, s.saved[me := oldLevel])
      case V(_) => s.(kernel := k)
      case Yield => State(k, false, s.saved[me := s.on])
      case Finish => State(k, false, s.saved)
      case Dispatch => s.(kernel := k)
      // back in `Yield`, or in `Begin`, or else in the loop of `P`
      case Resume => State(k, if Going(s.(kernel := k), me) then LevelOf(s, me) else s.on, s.saved)
  }

  /** Interrupts are off from before a switch until the thread switched to goes on, and also while a thread
      is in the loop of `P` or in `Sleep`; and every thread has a level to go on at. */
  ghost predicate Kept(s: State) {
    && (Going(s, s.kernel.current) || !s.on)
    && forall t :: There(s, t) ==> Going(s, t) || t in s.saved
  }

  /** Thread `t` exists and does not finish. */
  predicate There(s: State, t: nat) {
    t in s.kernel.threads && !s.kernel.threads[t].phase.Finishing?
  }

  ghost predicate Inv(s: State) {
    K.Inv(s.kernel) && Kept(s)
  }

  lemma WakingKeeps(s: State, step: K.Step)
    requires K.Scheduled(s.kernel) && K.Sleeping(s.kernel) && Kept(s) && K.Enabled(s.kernel, step)
    requires step.Fork? || step.V?
    ensures Kept(Next(s, Do(step)))
  {
    if step.V? && s.kernel.semaphores[step.s].queue != [] { FirstInP(s.kernel, step.s); }
  }

  lemma RunningKeeps(s: State, step: K.Step)
    requires K.Scheduled(s.kernel) && Kept(s) && K.Enabled(s.kernel, step) && (step.P? || step.Finish?)
    ensures Kept(Next(s, Do(step)))
  {
  }

  lemma SwitchKeeps(s: State, step: K.Step)
    requires K.Scheduled(s.kernel) && Kept(s) && K.Enabled(s.kernel, step)
    requires step.Yield? || step.Dispatch? || step.Resume?
    ensures Kept(Next(s, Do(step)))
  {
  }

  lemma NextKeeps(s: State, step: Step)
    requires Inv(s) && Enabled(s, step)
    ensures Kept(Next(s, step))
  {
    if step.Do? {
      match step.step
      case Fork(_) | V(_) => WakingKeeps(s, step.step);
      case P(_) | Finish => RunningKeeps(s, step.step);
      case _ => SwitchKeeps(s, step.step);
    }
  }

  lemma NextKeepsInv(s: State, step: Step)
    requires Inv(s) && Enabled(s, step)
    ensures Inv(Next(s, step))
  {
    NextKeeps(s, step);
    if step.Do? {
      K.NextKeepsInv(s.kernel, step.step);
    }
  }

  /** The ASSERTs on the level: it is off when `Sleep` looks for a thread to run, and after every switch. */
  lemma OffInSwitch(s: State, step: Step)
    requires Inv(s) && Enabled(s, step)
    ensures s.kernel.resuming || !K.Here(s.kernel, K.Running) ==> !s.on
    ensures step == Do(K.Dispatch) || step == Do(K.Yield) ==> Next(s, step).kernel.resuming && !Next(s, step).on
    ensures Next(s, step).kernel.current != s.kernel.current ==> !Next(s, step).on
  {
    NextKeeps(s, step);
  }

  /** A thread switched to exists, and has a level to go on at if it is not in `P`. */
  lemma Resumes(s: State)
    requires Inv(s) && s.kernel.resuming
    ensures var k, me := K.Next(s.kernel, K.Resume), s.kernel.current;
            && me in k.threads && me in s.saved && me !in s.kernel.toBeDestroyed
            && (Going(s.(kernel := k), me) <==> k.threads[me].phase.Computing?)
  {
  }

  /** What `P` and `V` find. */
  lemma Tests(s: State, sem: nat)
    requires Inv(s) && K.Enabled(s.kernel, K.P(sem))
    ensures Inv(Next(s, Do(K.P(sem)))) && s.kernel.current !in s.kernel.semaphores[sem].queue
    ensures Going(s, s.kernel.current) || (s.kernel.current in s.saved && !s.on)
  {
    NextKeepsInv(s, Do(K.P(sem)));
    K.RunningIsAwake(s.kernel, sem);
  }

  lemma Wakes(s: State, sem: nat)
    requires Inv(s) && K.Enabled(s.kernel, K.V(sem))
    ensures Inv(Next(s, Do(K.V(sem))))
    ensures s.kernel.semaphores[sem].queue != [] ==>
      var t := s.kernel.semaphores[sem].queue[0]; t in s.kernel.threads && t !in s.kernel.readyList
  {
    NextKeepsInv(s, Do(K.V(sem)));
    if s.kernel.semaphores[sem].queue != [] { K.FirstSleeps(s.kernel, sem); }
  }

  lemma SwitchLevel(s: State, step: K.Step, t: nat)
    requires K.Scheduled(s.kernel) && Kept(s) && K.Enabled(s.kernel, step) && t in s.kernel.threads
    requires step.Yield? || step.Dispatch? || step.Resume?
    ensures LevelOf(Next(s, Do(step)), t) == LevelOf(s, t)
  {
    if s.kernel.readyList != [] { assert s.kernel.readyList[0] in s.kernel.readyList; }
  }

  lemma OtherLevel(s: State, step: K.Step, t: nat)
    requires K.Scheduled(s.kernel) && K.Sleeping(s.kernel) && Kept(s) && K.Enabled(s.kernel, step)
    requires t in s.kernel.threads && There(Next(s, Do(step)), t)
    requires step.Fork? || step.V? || step.P? || step.Finish?
    ensures LevelOf(Next(s, Do(step)), t) == LevelOf(s, t)
  {
    if step.V? && s.kernel.semaphores[step.s].queue != [] { FirstInP(s.kernel, step.s); }
  }

  /** No step changes the level of a thread, but for the thread's own calls of `SetLevel`. */
  lemma LevelKept(s: State, step: Step, t: nat)
    requires Inv(s) && Enabled(s, step) && !(step.SetLevel? && t == s.kernel.current)
    requires t in s.kernel.threads && There(Next(s, step), t)
    ensures LevelOf(Next(s, step), t) == LevelOf(s, t)
  {
    if step.Do? {
      match step.step
      case Yield | Dispatch | Resume => SwitchLevel(s, step.step, t);
      case _ => OtherLevel(s, step.step, t);
    }
  }

  /** `SetLevel` sets the level of the thread that calls it, and of no other. */
  lemma SetsLevel(s: State, on: bool, t: nat)
    requires Inv(s) && Enabled(s, SetLevel(on))
    ensures LevelOf(Next(s, SetLevel(on)), t) == if t == s.kernel.current then on else LevelOf(s, t)
    ensures Next(s, SetLevel(on)).kernel == s.kernel
  {
  }

  /** A new thread begins with interrupts on. */
  lemma ForkedOn(s: State, t: nat)
    requires Inv(s) && Enabled(s, Do(K.Fork(t)))
    ensures LevelOf(Next(s, Do(K.Fork(t))), t)
  {
  }

  /** Thread `t` is gone or finishing. */
  ghost predicate Gone(s: State, t: nat) {
    || (t in s.kernel.deleted && t !in s.kernel.threads)
    || (t in s.kernel.threads && s.kernel.threads[t].phase.Finishing? && s.kernel.threads[t].status.Blocked?)
  }

  /** It stays so. */
  lemma StaysGone(s: State, step: Step, t: nat)
    requires K.Scheduled(s.kernel) && K.Sleeping(s.kernel) && K.Ending(s.kernel) && Enabled(s, step) && Gone(s, t)
    ensures Gone(Next(s, step), t)
  {
    if step.Do? && step.step.V? && s.kernel.semaphores[step.step.s].queue != [] { FirstInP(s.kernel, step.step.s); }
  }

  /** A thread that is there stays there or goes. */
  lemma StaysOrGoes(s: State, step: Step, t: nat)
    requires K.Scheduled(s.kernel) && K.Sleeping(s.kernel) && K.Ending(s.kernel) && Enabled(s, step) && There(s, t)
    ensures There(Next(s, step), t) || Gone(Next(s, step), t)
  {
    if step.Do? && step.step.V? && s.kernel.semaphores[step.step.s].queue != [] { FirstInP(s.kernel, step.step.s); }
  }

  lemma FirstInP(k: K.Kernel, s: nat)
    requires K.Sleeping(k) && s in k.semaphores && k.semaphores[s].queue != []
    ensures var t := k.semaphores[s].queue[0];
            t in k.threads && k.threads[t] == K.Thread(K.Blocked, K.InP(s))
  {
    assert k.semaphores[s].queue[0] in k.semaphores[s].queue;
  }

  /** Thread `t` is at level `level`, or gone. */
  ghost predicate HasLevel(s: State, t: nat, level: bool) {
    Gone(s, t) || (There(s, t) && LevelOf(s, t) == level)
  }

  lemma NextHasLevel(s: State, step: Step, t: nat, level: bool)
    requires Inv(s) && Enabled(s, step) && !(step.SetLevel? && t == s.kernel.current) && HasLevel(s, t, level)
    ensures HasLevel(Next(s, step), t, level)
  {
    if Gone(s, t) {
      StaysGone(s, step, t);
    } else {
      StaysOrGoes(s, step, t);
      if There(Next(s, step), t) {
        LevelKept(s, step, t);
      }
    }
  }

  ghost predicate Init(s: State) {
    K.Init(s.kernel) && s.saved == map[]
  }

  ghost predicate Run(ss: seq<State>, steps: seq<Step>) {
    && |ss| == |steps| + 1 && Init(ss[0])
    && forall i :: 0 <= i < |steps| ==> Follows(ss[i], steps[i], ss[i + 1])
  }

  ghost predicate Follows(s: State, step: Step, s': State) {
    Enabled(s, step) && s' == Next(s, step)
  }

  lemma {:induction false} EveryRun(ss: seq<State>, steps: seq<Step>, n: nat, s: State)
    requires Run(ss, steps) && n < |ss| && s == ss[n]
    ensures Inv(s)
  {
    if n == 0 {
      K.InitInv(s.kernel);
    } else {
      var before, step := ss[n - 1], steps[n - 1];
      EveryRun(ss, steps, n - 1, before);
      assert Follows(before, step, ss[n - 1 + 1]);
      NextKeepsInv(before, step);
    }
  }

  lemma {:induction false} LevelOrGone(ss: seq<State>, steps: seq<Step>, m: nat, n: nat, t: nat, s: State)
    requires Run(ss, steps) && m <= n < |ss| && t in ss[m].kernel.threads && s == ss[n]
    requires forall i :: m <= i < n && ss[i].kernel.current == t ==> !steps[i].SetLevel?
    ensures HasLevel(s, t, LevelOf(ss[m], t))
  {
    if n == m {
      EveryRun(ss, steps, n, s);
    } else {
      var before, step := ss[n - 1], steps[n - 1];
      EveryRun(ss, steps, n - 1, before);
      LevelOrGone(ss, steps, m, n - 1, t, before);
      assert Follows(before, step, ss[n - 1 + 1]);
      NextHasLevel(before, step, t, LevelOf(ss[m], t));
    }
  }

  /** Whatever happens in between - switches, sleeps in `P`, other threads with other levels - a thread goes
      on at the level that it was at, if it has not set another one itself. */
  lemma LevelThrough(ss: seq<State>, steps: seq<Step>, m: nat, n: nat, t: nat)
    requires Run(ss, steps) && m <= n < |ss| && t in ss[m].kernel.threads && Going(ss[n], t)
    requires forall i :: m <= i < n && ss[i].kernel.current == t ==> !steps[i].SetLevel?
    ensures ss[n].on == LevelOf(ss[m], t)
  {
    LevelOrGone(ss, steps, m, n, t, ss[n]);
  }

  /** A thread that goes on is at the level that its own last `SetLevel` has set. */
  lemma AtItsOwnLevel(ss: seq<State>, steps: seq<Step>, m: nat, n: nat, t: nat, on: bool)
    requires Run(ss, steps) && m < n < |ss| && Going(ss[n], t)
    requires steps[m] == SetLevel(on) && ss[m].kernel.current == t
    requires forall i :: m < i < n && ss[i].kernel.current == t ==> !steps[i].SetLevel?
    ensures ss[n].on == on
  {
    assert Follows(ss[m], steps[m], ss[m + 1]);
    EveryRun(ss, steps, m, ss[m]);
    SetsLevel(ss[m], on, t);
    LevelThrough(ss, steps, m + 1, n, t);
  }
}
