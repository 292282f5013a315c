/** threads/synchlist.cc on `Condition` of threads/synch.cc: a list shared under a lock, with a condition
    for its being empty. Each waiting thread has a semaphore of its own. */
module SynchLists {
  import opened Collections

  /** What a thread acquires the lock for, and how far it is in `Acquire`: at the test of `P`, asleep in
      `P`, or past `P` with `lockHolder` not set yet. */
  datatype Why<T> = ToAppend(x: T) | ToTake | ToGoOn
  datatype Stage = Testing | Sleeping | Entered

  /** Where a thread is in `Append` or `RemoveFront`. A thread that waits has a semaphore from the first
      half of `Wait` until `Deletes`; `signalled` says that it is off the wait queue, `posted` that its
      value is 1. In `Release` `lockHolder` is `wiped` first; a thread releases the lock to leave, or to
      wait. */
  datatype Where<T> =
    | Outside
    | Acquires(why: Why<T>, stage: Stage)
    // Append
    | Appends(x: T) | Signals | Posts(w: nat) | PostEnds(w: nat)
    // RemoveFront
    | Tests | AtP(signalled: bool, posted: bool) | Asleep(signalled: bool) | Deletes
    | Releases(waiting: bool, wiped: bool)

  /** The list, the lock - the value and the queue of its semaphore, and its holder - the queue of the
      condition, and the threads. `inside`, `appended` and `removed` only record: which thread is between
      the end of `P` and the `V` of `Release`, what has gone in, what has come out. */
  datatype State<T> = State(
    list: seq<T>, value: nat, lockQueue: seq<nat>, lockHolder: Option<nat>, waitQueue: seq<nat>,
    threads: map<nat, Where<T>>, inside: Option<nat>, appended: seq<T>, removed: seq<T>)

  datatype Choice<T> = Append(x: T) | RemoveFront

  function At<T>(s: State<T>, t: nat): Where<T> {
    if t in s.threads then s.threads[t] else Outside
  }

  function Move<T>(s: State<T>, t: nat, w: Where<T>): State<T> {
    s.(threads := s.threads[t := w])
  }

  /** Is a thread at `w` between the end of `P` and the `V` of `Release`? */
  predicate Inside<T>(w: Where<T>) {
    || (w.Acquires? && w.stage.Entered?) || w.Appends? || w.Signals? || w.Posts? || w.PostEnds?
    || w.Tests? || w.Deletes? || w.Releases?
  }

  /** Is it noted as the holder? */
  predicate Noted<T>(w: Where<T>) {
    Inside(w) && !w.Acquires? && !(w.Releases? && w.wiped)
  }

  /** Thread `t` can go on: it does not sleep on a semaphore. */
  predicate Enabled<T>(s: State<T>, t: nat) {
    var w := At(s, t);
    !w.Asleep? && !(w.Acquires? && w.stage.Sleeping?)
  }

  /** `Semaphore::V` on the semaphore of thread `w`: its value is 1, and the thread is awake. */
  function Posted<T>(s: State<T>, w: nat): State<T> {
    match At(s, w)
    case AtP(signalled, _) => Move(s, w, AtP(signalled, true))
    case Asleep(signalled) => Move(s, w, AtP(signalled, true))
    case _ => s
  }

  /** Takes the semaphore of thread `w` off the wait queue. */
  function Signalled<T>(s: State<T>, w: nat): State<T> {
    match At(s, w)
    case AtP(_, posted) => Move(s, w, AtP(true, posted))
    case Asleep(_) => Move(s, w, Asleep(true))
    case _ => s
  }

  /** One turn of the loop of `P` on the lock: takes the value, or goes to sleep. */
  function Try<T>(s: State<T>, t: nat, why: Why<T>): State<T> {
    if s.value == 0 then Move(s, t, Acquires(why, Sleeping)).(lockQueue := s.lockQueue + [t])
    else Move(s, t, Acquires(why, Entered)).(value := s.value - 1, inside := Some(t))
  }

  /** Where a thread goes on with the lock. */
  function Holding<T>(why: Why<T>): Where<T> {
    match why
    case ToAppend(x) => Appends(x)
    case ToTake => Tests
    case ToGoOn => Deletes
  }

  /** `V` on the lock by thread `t`, which goes on at `w`: the first sleeper is to test again. */
  function Freed<T>(s: State<T>, t: nat, w: Where<T>): State<T> {
    var s' := Move(s, t, w).(value := s.value + 1, inside := None);
    if s.lockQueue == [] then s'
    else Woken(s', s.lockQueue[0]).(lockQueue := s.lockQueue[1..])
  }

  function Woken<T>(s: State<T>, u: nat): State<T> {
    if At(s, u).Acquires? then Move(s, u, At(s, u).(stage := Testing)) else s
  }

  /** The next step of thread `t`; `c` is what it does if it is outside. */
  function Next<T>(s: State<T>, t: nat, c: Choice<T>): State<T> {
    match At(s, t)
    case Outside => Move(s, t, Acquires(match c case Append(x) => ToAppend(x) case RemoveFront => ToTake, Testing))
    case Acquires(why, stage) =>
      (match stage
       case Testing => Try(s, t, why)
       case Sleeping => s
       case Entered => Move(s, t, Holding(why)).(lockHolder := Some(t)))
    case Appends(x) => Move(s, t, Signals).(list := s.list + [x], appended := s.appended + [x])
    case Signals =>
      if s.waitQueue == [] then Move(s, t, Releases(false, false))
      else Move(Signalled(s, s.waitQueue[0]), t, Posts(s.waitQueue[0])).(waitQueue := s.waitQueue[1..])
    case Posts(w) => Move(Posted(s, w), t, PostEnds(w))
    case PostEnds(w) => Move(s, t, Releases(false, false))
    case Tests =>
      if s.list == [] then Move(s, t, Releases(true, false)).(waitQueue := s.waitQueue + [t])
      else Move(s, t, Releases(false, false)).(list := s.list[1..], removed := s.removed + [s.list[0]])
    case Releases(waiting, wiped) =>
      if !wiped then Move(s, t, Releases(waiting, true)).(lockHolder := None)
      else Freed(s, t, if waiting then AtP(false, false) else Outside)
    case AtP(signalled, posted) => Move(s, t, if posted then Acquires(ToGoOn, Testing) else Asleep(signalled))
    case Asleep(_) => s
    case Deletes => Move(s, t, Tests)
  }

  // ---------- what holds in every state ----------

  /** One thread is inside at most, and the lock's semaphore is free exactly when none is; the holder, if
      noted, is that thread. */
  ghost predicate Locked<T>(s: State<T>) {
    && (forall t: nat :: Inside(At(s, t)) <==> s.inside == Some(t))
    && (forall t: nat :: Noted(At(s, t)) <==> s.lockHolder == Some(t))
    && s.value == if s.inside.None? then 1 else 0
  }

  /** The lock's queue holds the threads that sleep in `Acquire`, each once. */
  ghost predicate Queueing<T>(s: State<T>) {
    && NoRepeats(s.lockQueue)
    && forall t: nat :: t in s.lockQueue <==> InQueue(At(s, t))
  }

  predicate InQueue<T>(w: Where<T>) {
    w.Acquires? && w.stage.Sleeping?
  }

  predicate Trying<T>(w: Where<T>) {
    w.Acquires? && w.stage.Testing?
  }

  /** While threads sleep for a lock that is free, some thread is about to test its value. */
  ghost predicate Coming<T>(s: State<T>) {
    s.value > 0 && s.lockQueue != [] ==> exists t: nat :: Trying(At(s, t))
  }

  /** Is thread `t`'s semaphore still on the wait queue? */
  predicate Queued<T>(w: Where<T>) {
    (w.Releases? && w.waiting) || (w.AtP? && !w.signalled) || (w.Asleep? && !w.signalled)
  }

  /** Thread `t`'s semaphore is on the wait queue as long as no one has signalled it; it is posted only
      after that; and if it is off the queue but not posted the thread in `Signal` is about to post it. */
  ghost predicate WaitsRight<T>(s: State<T>, t: nat) {
    var w := At(s, t);
    && (t in s.waitQueue <==> Queued(w))
    && (w.AtP? && w.posted ==> w.signalled)
    && (OffQueue(w) ==> s.inside.Some? && At(s, s.inside.value) == Posts(t))
  }

  ghost predicate Waiting<T>(s: State<T>) {
    NoRepeats(s.waitQueue) && forall t: nat :: WaitsRight(s, t)
  }

  /** While `V` runs on a thread's semaphore that thread cannot have deleted it: it would need the lock. */
  ghost predicate Live<T>(s: State<T>) {
    s.inside.Some? ==>
      match At(s, s.inside.value)
      case Posts(w) => OffQueue(At(s, w))
      case PostEnds(w) => At(s, w) == AtP(true, true) || Returning(At(s, w))
      case _ => true
  }

  /** Off the wait queue, but not woken. */
  predicate OffQueue<T>(w: Where<T>) {
    w == AtP(true, false) || w == Asleep(true)
  }

  /** On the way back into the lock, awake or asleep in its queue. */
  predicate Returning<T>(w: Where<T>) {
    w.Acquires? && w.why.ToGoOn? && !w.stage.Entered?
  }

  /** The threads that will look at the list, or signal one that will, without being signalled again. */
  predicate Claims<T>(w: Where<T>) {
    || (w.AtP? && w.signalled) || (w.Asleep? && w.signalled) || (w.Acquires? && w.why.ToGoOn?)
    || w.Deletes? || w.Tests? || w.Signals?
  }

  function Claimers<T>(threads: map<nat, Where<T>>): set<nat> {
    set t | t in threads && Claims(threads[t])
  }

  /** Items come out in the order they went in. While a thread waits for a signal, every item in the list
      has a thread on its way to it. */
  ghost predicate Counted<T>(s: State<T>) {
    && s.removed + s.list == s.appended
    && (s.waitQueue != [] ==> |s.list| <= |Claimers(s.threads)|)
  }

  ghost predicate Inv<T>(s: State<T>) {
    Locked(s) && Queueing(s) && Coming(s) && Waiting(s) && Live(s) && Counted(s)
  }

  /** Moving one thread changes the claimers by that thread at most. */
  lemma ClaimersMove<T>(threads: map<nat, Where<T>>, t: nat, w: Where<T>)
    ensures |Claimers(threads[t := w])|
         == |Claimers(threads)| - (if t in threads && Claims(threads[t]) then 1 else 0) + (if Claims(w) then 1 else 0)
  {
    assert Claimers(threads[t := w]) == if Claims(w) then Claimers(threads) + {t} else Claimers(threads) - {t};
  }

  lemma CountedKept<T>(s: State<T>, t: nat, c: Choice<T>)
    requires Inv(s) && Enabled(s, t)
    ensures Counted(Next(s, t, c))
  {
    match At(s, t)
    case Signals => SignalCounts(s, t, c);
    case Posts(w) => PostCounts(s, t, c);
    case Releases(_, wiped) => ReleaseCounts(s, t, c);
    case Asleep(_) =>
    case _ => ClaimersMove(s.threads, t, At(Next(s, t, c), t));
  }

  /** A signal hands the claim of the signaller on to the thread signalled. */
  lemma SignalCounts<T>(s: State<T>, t: nat, c: Choice<T>)
    requires Inv(s) && At(s, t).Signals?
    ensures Counted(Next(s, t, c))
  {
    assert Inside(At(s, t)) <==> s.inside == Some(t);
    if s.waitQueue == [] {
      ClaimersMove(s.threads, t, Releases(false, false));
    } else {
      var w := s.waitQueue[0];
      assert WaitsRight(s, w);
      assert Inside(At(s, w)) <==> s.inside == Some(w);
      ClaimersMove(s.threads, w, At(Signalled(s, w), w));
      ClaimersMove(Signalled(s, w).threads, t, Posts(w));
    }
  }

  lemma PostCounts<T>(s: State<T>, t: nat, c: Choice<T>)
    requires Inv(s) && At(s, t).Posts?
    ensures Counted(Next(s, t, c))
  {
    var w := At(s, t).w;
    ClaimersMove(s.threads, w, At(Posted(s, w), w));
    ClaimersMove(Posted(s, w).threads, t, PostEnds(w));
  }

  lemma ReleaseCounts<T>(s: State<T>, t: nat, c: Choice<T>)
    requires Inv(s) && At(s, t).Releases?
    ensures Counted(Next(s, t, c))
  {
    var moved := s.threads[t := At(Next(s, t, c), t)];
    ClaimersMove(s.threads, t, At(Next(s, t, c), t));
    if At(s, t).wiped && s.lockQueue != [] {
      var u := s.lockQueue[0];
      assert u in s.lockQueue;
      ClaimersMove(moved, u, At(Next(s, t, c), u));
    }
  }

  /** A step changes the thread that takes it and the one that it signals or wakes. */
  lemma OthersStay<T>(s: State<T>, t: nat, c: Choice<T>, u: nat)
    requires u != t
    ensures var s' := Next(s, t, c);
            match At(s, t)
            case Signals => At(s', u) == (if s.waitQueue != [] && s.waitQueue[0] == u
              then At(Signalled(s, u), u) else At(s, u))
            case Posts(w) => At(s', u) == (if w == u then At(Posted(s, u), u) else At(s, u))
            case Releases(_, true) => At(s', u) == (if s.lockQueue != [] && s.lockQueue[0] == u
              then At(Woken(s, u), u) else At(s, u))
            case _ => At(s', u) == At(s, u)
  {
  }

  lemma InsideKept<T>(s: State<T>, t: nat, c: Choice<T>, u: nat)
    requires Locked(s) && Queueing(s) && Enabled(s, t)
    ensures Inside(At(Next(s, t, c), u)) <==> Next(s, t, c).inside == Some(u)
  {
    assert Inside(At(s, t)) <==> s.inside == Some(t);
    assert Inside(At(s, u)) <==> s.inside == Some(u);
    if u != t {
      OthersStay(s, t, c, u);
    }
  }

  lemma HolderKept<T>(s: State<T>, t: nat, c: Choice<T>, u: nat)
    requires Locked(s) && Queueing(s) && Enabled(s, t)
    ensures Noted(At(Next(s, t, c), u)) <==> Next(s, t, c).lockHolder == Some(u)
  {
    assert Inside(At(s, t)) <==> s.inside == Some(t);
    assert Inside(At(s, u)) <==> s.inside == Some(u);
    assert Noted(At(s, t)) <==> s.lockHolder == Some(t);
    assert Noted(At(s, u)) <==> s.lockHolder == Some(u);
    if u != t {
      OthersStay(s, t, c, u);
    }
  }

  lemma LockedKept<T>(s: State<T>, t: nat, c: Choice<T>)
    requires Locked(s) && Queueing(s) && Enabled(s, t)
    ensures Locked(Next(s, t, c))
  {
    assert Inside(At(s, t)) <==> s.inside == Some(t);
    forall u: nat
      ensures Inside(At(Next(s, t, c), u)) <==> Next(s, t, c).inside == Some(u)
      ensures Noted(At(Next(s, t, c), u)) <==> Next(s, t, c).lockHolder == Some(u)
    {
      InsideKept(s, t, c, u);
      HolderKept(s, t, c, u);
    }
  }

  lemma QueueingKept<T>(s: State<T>, t: nat, c: Choice<T>)
    requires Locked(s) && Queueing(s) && Enabled(s, t)
    ensures Queueing(Next(s, t, c))
  {
    var s' := Next(s, t, c);
    NoRepeatsParts(s.lockQueue, t);
    forall u: nat ensures u in s'.lockQueue <==> InQueue(At(s', u)) {
      assert u in s.lockQueue <==> InQueue(At(s, u));
      if u != t { OthersStay(s, t, c, u); }
    }
  }

  lemma ComingKept<T>(s: State<T>, t: nat, c: Choice<T>)
    requires Locked(s) && Queueing(s) && Coming(s) && Enabled(s, t)
    ensures Coming(Next(s, t, c))
  {
    var s' := Next(s, t, c);
    assert Inside(At(s, t)) <==> s.inside == Some(t);
    if s'.value > 0 && s'.lockQueue != [] {
      if s.value > 0 && s.lockQueue != [] {
        var u: nat :| Trying(At(s, u));
        if u != t { OthersStay(s, t, c, u); }
        assert Trying(At(s', u));
      } else {
        var u := s.lockQueue[0];
        assert u in s.lockQueue;
        OthersStay(s, t, c, u);
        assert Trying(At(s', u));
      }
    }
  }

  lemma QueueKept<T>(s: State<T>, t: nat, c: Choice<T>)
    requires NoRepeats(s.waitQueue) && WaitsRight(s, t)
    ensures NoRepeats(Next(s, t, c).waitQueue)
  {
    NoRepeatsParts(s.waitQueue, t);
  }

  lemma OwnWaitKept<T>(s: State<T>, t: nat, c: Choice<T>)
    requires Locked(s) && Waiting(s) && Live(s) && Enabled(s, t)
    ensures WaitsRight(Next(s, t, c), t)
  {
    assert WaitsRight(s, t);
    assert Inside(At(s, t)) <==> s.inside == Some(t);
    NoRepeatsParts(s.waitQueue, t);
  }

  lemma OthersWaitKept<T>(s: State<T>, t: nat, c: Choice<T>, u: nat)
    requires Locked(s) && Queueing(s) && Waiting(s) && Live(s) && Enabled(s, t) && u != t
    ensures WaitsRight(Next(s, t, c), u)
  {
    assert WaitsRight(s, u);
    assert Inside(At(s, t)) <==> s.inside == Some(t);
    assert Inside(At(s, u)) <==> s.inside == Some(u);
    NoRepeatsParts(s.waitQueue, t);
    OthersStay(s, t, c, u);
  }

  lemma LiveKept<T>(s: State<T>, t: nat, c: Choice<T>)
    requires Locked(s) && Queueing(s) && Waiting(s) && Live(s) && Enabled(s, t)
    ensures Live(Next(s, t, c))
  {
    assert Inside(At(s, t)) <==> s.inside == Some(t);
    if s.waitQueue != [] {
      assert WaitsRight(s, s.waitQueue[0]);
    }
    if s.inside.Some? && s.inside.value != t {
      OthersStay(s, t, c, s.inside.value);
    }
  }

  lemma NextKeepsInv<T>(s: State<T>, t: nat, c: Choice<T>)
    requires Inv(s) && Enabled(s, t)
    ensures Inv(Next(s, t, c))
  {
    LockedKept(s, t, c);
    forall u: nat ensures WaitsRight(Next(s, t, c), u) {
      if u == t { OwnWaitKept(s, t, c); } else { OthersWaitKept(s, t, c, u); }
    }
    QueueKept(s, t, c);
    QueueingKept(s, t, c);
    ComingKept(s, t, c);
    LiveKept(s, t, c);
    CountedKept(s, t, c);
  }

  function Start<T>(): State<T> {
    State([], 1, [], None, [], map[], None, [], [])
  }

  /** `steps` - which thread goes on, and what it starts if it is outside - lead from `s` to `s'`. */
  ghost predicate Leads<T>(s: State<T>, steps: seq<(nat, Choice<T>)>, s': State<T>)
    decreases |steps|
  {
    if steps == [] then s == s'
    else Enabled(s, steps[0].0) && Leads(Next(s, steps[0].0, steps[0].1), steps[1..], s')
  }

  lemma {:induction false} LeadsKeeps<T>(s: State<T>, steps: seq<(nat, Choice<T>)>, s': State<T>)
    requires Inv(s) && Leads(s, steps, s')
    ensures Inv(s')
    decreases |steps|
  {
    if steps != [] {
      NextKeepsInv(s, steps[0].0, steps[0].1);
      LeadsKeeps(Next(s, steps[0].0, steps[0].1), steps[1..], s');
    }
  }

  /** In every interleaving the list is a FIFO, the semaphore of a waiting thread outlives the `V` on it,
      and no wakeup is lost, neither by the condition nor by the lock. */
  lemma EveryRun<T>(steps: seq<(nat, Choice<T>)>, s: State<T>)
    requires Leads(Start(), steps, s)
    ensures Inv(s) && s.removed <= s.appended
  {
    assert Inv<T>(Start());
    LeadsKeeps(Start(), steps, s);
  }

  /** `Wait`, `Signal` and `Release` find the lock held by the thread that calls them, and the thread whose
      semaphore `V` is done on has not deleted it. */
  lemma AssertsHold<T>(s: State<T>, t: nat)
    requires Inv(s)
    ensures At(s, t).Tests? || At(s, t).Signals? ==> s.lockHolder == Some(t)
    ensures At(s, t).Releases? && !At(s, t).wiped ==> s.lockHolder == Some(t)
    ensures At(s, t).Posts? ==> OffQueue(At(s, At(s, t).w))
    ensures At(s, t).PostEnds? ==> At(s, At(s, t).w).AtP? || Returning(At(s, At(s, t).w))
  {
    assert Noted(At(s, t)) <==> s.lockHolder == Some(t);
    assert Inside(At(s, t)) <==> s.inside == Some(t);
  }

  /** With the lock free, while a thread waits for a signal, there are at least as many threads signalled
      and not back in the lock as there are items. */
  lemma ItemsCovered<T>(s: State<T>)
    requires Inv(s) && s.value > 0 && s.waitQueue != []
    ensures |s.list| <= |Claimers(s.threads)|
    ensures forall t :: t in Claimers(s.threads) ==> At(s, t) == AtP(true, true) || Returning(At(s, t))
  {
    forall t | t in Claimers(s.threads) ensures At(s, t) == AtP(true, true) || Returning(At(s, t)) {
      assert WaitsRight(s, t);
      assert Inside(At(s, t)) <==> s.inside == Some(t);
    }
  }
}
