/** filesys/synchdisk.cc on machine/disk.cc: any number of threads under a lock of `Locks`, one disk request
    at a time, each ended by its interrupt. */
module SynchDisks {
  import opened Collections
  import Locks

  /** What a thread is doing with the disk: nothing; waiting for request number `n` to end; or past that,
      with the lock still to be released. */
  datatype Use = Idle | Waits(n: nat) | Served

  /** `value` is the semaphore's; `scheduled` how many disk interrupts are pending. `requests` and
      `callbacks` count both ends of the requests. */
  datatype State = State(
    lock: Locks.Lock, uses: map<nat, Use>, value: nat,
    active: bool, scheduled: nat, requests: nat, callbacks: nat)

  /** `ReadSector` and `WriteSector` are `Acquire`, Request, P and `Release`. */
  datatype Step = OnLock(step: Locks.Step) | Request(t: nat) | CallBack | P(t: nat)

  function UseOf(s: State, t: nat): Use {
    if t in s.uses then s.uses[t] else Idle
  }

  /** Nothing here asks whether the disk is active: that it is not, when a request is made, is to be shown. */
  predicate Enabled(s: State, step: Step) {
    match step
    case OnLock(step) => Locks.Enabled(s.lock, step) && (step.Wipe? ==> UseOf(s, step.t).Served?)
    case Request(t) => Locks.At(s.lock, t).Noted? && UseOf(s, t).Idle?
    case CallBack => s.scheduled > 0
    case P(t) => UseOf(s, t).Waits? && s.value > 0
  }

  function Next(s: State, step: Step): State
    requires Enabled(s, step)
  {
    match step
    case OnLock(step) =>
      s.(lock := Locks.Next(s.lock, step), uses := if step.Wipe? then s.uses[step.t := Idle] else s.uses)
    case Request(t) =>
      s.(uses := s.uses[t := Waits(s.requests + 1)], active := true, scheduled := s.scheduled + 1,
         requests := s.requests + 1)
    case CallBack =>
      s.(scheduled := s.scheduled - 1, active := false, value := s.value + 1, callbacks := s.callbacks + 1)
    case P(t) => s.(uses := s.uses[t := Served], value := s.value - 1)
  }

  /** The lock is as it should be, and only its holder uses the disk. While it waits, the disk is active with
      one interrupt to come, or the semaphore has the one callback that it waits for; else neither. */
  ghost predicate Inv(s: State) {
    && Locks.Inv(s.lock)
    && (forall t: nat :: !UseOf(s, t).Idle? ==> s.lock.lockHolder == Some(t))
    && (s.active <==> s.scheduled == 1) && s.scheduled <= 1
    && s.requests == s.callbacks + s.scheduled
    && if s.lock.lockHolder.Some? && UseOf(s, s.lock.lockHolder.value).Waits? then
         s.value + s.scheduled == 1 && UseOf(s, s.lock.lockHolder.value).n == s.requests
       else s.value == 0 && s.scheduled == 0
  }

  /** The ASSERT of a request holds: the disk is idle; so does that of `Release`. And a request that returns
      does so after as many callbacks as there were requests up to its own: its own is the last of them. */
  lemma OneAtATime(s: State, t: nat)
    requires Inv(s)
    ensures Enabled(s, Request(t)) ==> !s.active
    ensures Enabled(s, P(t)) ==> !s.active && s.callbacks == UseOf(s, t).n
    ensures Enabled(s, OnLock(Locks.Wipe(t))) ==>
      s.lock.lockHolder == Some(t) && UseOf(s, t).Served? && s.callbacks == s.requests
    ensures s.value <= 1
  {
    assert Locks.At(s.lock, t).Noted? <==> s.lock.lockHolder == Some(t);
  }

  lemma NextKeepsInv(s: State, step: Step)
    requires Inv(s) && Enabled(s, step)
    ensures Inv(Next(s, step))
  {
    match step
    case OnLock(step) => LockStepKeeps(s, step);
    case Request(t) => assert Locks.At(s.lock, t).Noted? <==> s.lock.lockHolder == Some(t);
    case CallBack =>
    case P(t) => assert Locks.At(s.lock, t).Noted? <==> s.lock.lockHolder == Some(t);
  }

  /** The holder changes only while no one uses the disk. */
  lemma LockStepKeeps(s: State, step: Locks.Step)
    requires Inv(s) && Enabled(s, OnLock(step))
    ensures Inv(Next(s, OnLock(step)))
  {
    Locks.NextKeepsInv(s.lock, step);
    assert Locks.At(s.lock, step.t).Noted? <==> s.lock.lockHolder == Some(step.t);
    if s.lock.lockHolder.Some? && !Locks.At(s.lock, step.t).Outside? {
      assert Locks.At(s.lock, s.lock.lockHolder.value).Noted?;
      Locks.MutualExclusion(s.lock, s.lock.lockHolder.value, step.t);
    }
  }

  ghost predicate Run(states: seq<State>, steps: seq<Step>) {
    && |states| == |steps| + 1 && states[0] == State(Locks.New(), map[], 0, false, 0, 0, 0)
    && forall i :: 0 <= i < |steps| ==> Enabled(states[i], steps[i]) && states[i + 1] == Next(states[i], steps[i])
  }

  lemma {:induction false} EveryRun(states: seq<State>, steps: seq<Step>, n: nat)
    requires Run(states, steps) && n < |states|
    ensures Inv(states[n])
  {
    if n > 0 {
      EveryRun(states, steps, n - 1);
      NextKeepsInv(states[n - 1], steps[n - 1]);
    }
  }

  /** A thread that waits for the disk is never left waiting: its interrupt is to come, or it can go on. */
  lemma NeverLeft(s: State, t: nat)
    requires Inv(s) && UseOf(s, t).Waits?
    ensures Enabled(s, CallBack) != Enabled(s, P(t))
  {
    assert s.lock.lockHolder == Some(t);
  }

  // ---------- every request can be served ----------

  /** `steps`, each one possible in its turn, lead from `s` to `s'`. */
  ghost predicate Leads(s: State, steps: seq<Step>, s': State)
    decreases |steps|
  {
    if steps == [] then s == s'
    else Enabled(s, steps[0]) && Leads(Next(s, steps[0]), steps[1..], s')
  }

  lemma {:induction false} LeadsOn(s: State, first: seq<Step>, s': State, rest: seq<Step>, s'': State)
    requires Leads(s, first, s') && Leads(s', rest, s'')
    ensures Leads(s, first + rest, s'')
    decreases |first|
  {
    if first == [] {
      assert first + rest == rest;
    } else {
      LeadsOn(Next(s, first[0]), first[1..], s', rest, s'');
      assert (first + rest)[1..] == first[1..] + rest;
    }
  }

  /** What thread `t`, past `P` of the lock, does next, and how many such steps are left. */
  function NextOf(s: State, t: nat): (Step, nat) {
    match Locks.At(s.lock, t)
    case Entered => (OnLock(Locks.Note(t)), 6)
    case Leaving => (OnLock(Locks.Leave(t)), 1)
    case _ =>
      match UseOf(s, t)
      case Idle => (Request(t), 5)
      case Waits(_) => if s.scheduled > 0 then (CallBack, 4) else (P(t), 3)
      case Served => (OnLock(Locks.Wipe(t)), 2)
  }

  /** The one thread inside is never kept from going on: what it waits for comes. */
  lemma GoesOn(s: State, t: nat)
    requires Inv(s) && !Locks.At(s.lock, t).Outside?
    ensures Enabled(s, NextOf(s, t).0)
    ensures var s' := Next(s, NextOf(s, t).0);
            if Locks.At(s.lock, t).Leaving? then s'.lock.value == 1 && Locks.At(s'.lock, t).Outside?
            else !Locks.At(s'.lock, t).Outside? && NextOf(s', t).1 < NextOf(s, t).1
  {
    Locks.MutualExclusion(s.lock, t, t);
    if UseOf(s, t).Waits? { NeverLeft(s, t); }
  }

  /** So it leaves the lock in the end. */
  lemma {:induction false} CanLeave(s: State, t: nat) returns (steps: seq<Step>, s': State)
    requires Inv(s) && !Locks.At(s.lock, t).Outside?
    ensures Leads(s, steps, s') && Inv(s') && s'.lock.value == 1 && Locks.At(s'.lock, t).Outside?
    ensures s'.requests == s.requests + (if !Locks.At(s.lock, t).Leaving? && UseOf(s, t).Idle? then 1 else 0)
    decreases NextOf(s, t).1
  {
    GoesOn(s, t);
    var step := NextOf(s, t).0;
    var next := Next(s, step);
    NextKeepsInv(s, step);
    if Locks.At(s.lock, t).Leaving? {
      steps, s' := [], next;
    } else {
      steps, s' := CanLeave(next, t);
    }
    assert ([step] + steps)[1..] == steps;
    steps := [step] + steps;
  }

  /** From every state, steps are possible in which thread `t`, if it is outside, gets the lock, makes one
      request, and leaves once that has ended: as many callbacks as requests have come then. */
  lemma CanServe(s: State, t: nat) returns (mid: State, before: seq<Step>, steps: seq<Step>, s': State)
    requires Inv(s) && Locks.At(s.lock, t).Outside?
    ensures Leads(s, before, mid) && mid.lock.value == 1 && Locks.At(mid.lock, t).Outside?
    ensures Leads(mid, steps, s') && s'.lock.value == 1 && Locks.At(s'.lock, t).Outside?
    ensures s'.requests == mid.requests + 1 && s'.callbacks == s'.requests && !s'.active && s'.value == 0
  {
    before, mid := [], s;
    if s.lock.value == 0 {
      assert Locks.Inside(s.lock.threads) != {};
      var u :| u in Locks.Inside(s.lock.threads);
      before, mid := CanLeave(s, u);
    }
    OthersOutside(mid, t);
    var enter := OnLock(Locks.Enter(t));
    NextKeepsInv(mid, enter);
    steps, s' := CanLeave(Next(mid, enter), t);
    assert ([enter] + steps)[1..] == steps;
    steps := [enter] + steps;
    OthersOutside(s', t);
  }

  /** With the lock free no thread is inside, and none uses the disk. */
  lemma OthersOutside(s: State, t: nat)
    requires Inv(s) && s.lock.value == 1
    ensures Locks.At(s.lock, t).Outside? && UseOf(s, t).Idle? && s.lock.lockHolder.None?
  {
    assert Locks.Inside(s.lock.threads) == {};
    assert forall u: nat :: u in Locks.Inside(s.lock.threads) <==> !Locks.At(s.lock, u).Outside?;
    assert forall u: nat :: Locks.At(s.lock, u).Noted? <==> s.lock.lockHolder == Some(u);
  }
}
