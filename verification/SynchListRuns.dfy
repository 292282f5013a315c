/** What runs of a `SynchList` lead to: items are delivered, and its lock behaves like a lock. */
module SynchListRuns {
  import opened Collections
  import opened SynchLists
  import Locks

  // ---------- what is in the list can be had ----------

  /** The threads that will look at the list without being signalled again. */
  predicate Looks<T>(w: Where<T>) {
    || (w.AtP? && w.signalled) || (w.Asleep? && w.signalled) || (w.Acquires? && !w.why.ToAppend?)
    || w.Deletes? || w.Tests?
  }

  /** Some thread wants an item. */
  ghost predicate Awaited<T>(s: State<T>) {
    s.waitQueue != [] || exists t: nat :: Looks(At(s, t))
  }

  /** A thread that is not asleep, and gets on: in the lock, about to enter it while it is free, or just
      signalled. */
  predicate GetsOn<T>(s: State<T>, t: nat) {
    var w := At(s, t);
    Inside(w) || (Trying(w) && s.value > 0) || w == AtP(true, true)
  }

  /** While there are items and a thread wants one, some thread gets on. */
  lemma NobodyForgotten<T>(s: State<T>) returns (t: nat)
    requires Inv(s) && Awaited(s) && s.list != []
    ensures Enabled(s, t) && GetsOn(s, t)
  {
    if s.inside.Some? {
      t := s.inside.value;
      assert Inside(At(s, t)) <==> s.inside == Some(t);
    } else {
      if s.waitQueue != [] {
        ItemsCovered(s);
        assert Claimers(s.threads) != {};
        t :| t in Claimers(s.threads);
      } else {
        t :| Looks(At(s, t));
        assert WaitsRight(s, t);
        assert Inside(At(s, t)) <==> s.inside == Some(t);
      }
      assert t in s.lockQueue <==> InQueue(At(s, t));
      if InQueue(At(s, t)) {
        t := LockComes(s);
      }
    }
  }

  /** While a thread sleeps in the lock's queue, some thread gets on. */
  lemma LockComes<T>(s: State<T>) returns (t: nat)
    requires Inv(s) && s.lockQueue != []
    ensures Enabled(s, t) && GetsOn(s, t)
  {
    if s.inside.Some? {
      t := s.inside.value;
      assert Inside(At(s, t)) <==> s.inside == Some(t);
    } else {
      t :| Trying(At(s, t));
    }
  }

  /** How many steps a thread may take, at most, before it takes an item or has appended one; waiting for
      others is not counted. */
  function Rank<T>(w: Where<T>): nat {
    match w
    case Outside => 0
    case Releases(waiting, wiped) => (if waiting then 21 else 5) + (if wiped then 0 else 1)
    case PostEnds(_) => 7
    case Posts(_) => 8
    case Signals => 9
    case Appends(_) => 10
    case Tests => 15
    case Deletes => 16
    case AtP(_, _) => 20
    case Asleep(_) => 20
    case Acquires(why, stage) =>
      (if why.ToAppend? then 11 else 17) + (match stage case Entered => 0 case Testing => 1 case Sleeping => 2)
  }

  const HIGHEST := 22

  function AtLeast<T>(threads: map<nat, Where<T>>, k: nat): set<nat> {
    set t | t in threads && Rank(threads[t]) >= k
  }

  /** The sum of all ranks, counted as how many threads have at least each one. */
  function Total<T>(threads: map<nat, Where<T>>, k: nat): nat
    decreases k, |threads|
  {
    if k == 0 then 0 else Total(threads, k - 1) + |AtLeast(threads, k)|
  }

  function UpTo(n: nat, k: nat): nat {
    if n < k then n else k
  }

  lemma AtLeastMove<T>(threads: map<nat, Where<T>>, t: nat, w: Where<T>, k: nat)
    ensures |AtLeast(threads[t := w], k)|
         == |AtLeast(threads, k)| - (if t in threads && Rank(threads[t]) >= k then 1 else 0)
            + (if Rank(w) >= k then 1 else 0)
  {
    var more := AtLeast(threads, k);
    assert AtLeast(threads[t := w], k) == if Rank(w) >= k then more + {t} else more - {t};
  }

  lemma {:induction false} TotalMove<T>(threads: map<nat, Where<T>>, t: nat, w: Where<T>, k: nat)
    ensures Total(threads[t := w], k)
         == Total(threads, k) - (if t in threads then UpTo(Rank(threads[t]), k) else 0) + UpTo(Rank(w), k)
  {
    if k > 0 {
      TotalMove(threads, t, w, k - 1);
      AtLeastMove(threads, t, w, k);
    }
  }

  function Left<T>(s: State<T>): nat {
    Total(s.threads, HIGHEST)
  }

  lemma MoveDrops<T>(s: State<T>, t: nat, w: Where<T>)
    ensures Left(Move(s, t, w)) == Left(s) - Rank(At(s, t)) + Rank(w)
  {
    RankBound(w);
    RankBound(At(s, t));
    TotalMove(s.threads, t, w, HIGHEST);
  }

  lemma RankBound<T>(w: Where<T>)
    ensures Rank(w) <= HIGHEST
  {
  }

  lemma SignalDrops<T>(s: State<T>, t: nat, c: Choice<T>)
    requires At(s, t).Signals? && (s.waitQueue != [] ==> s.waitQueue[0] != t)
    ensures Left(Next(s, t, c)) < Left(s)
  {
    if s.waitQueue == [] {
      MoveDrops(s, t, Releases(false, false));
    } else {
      var w := s.waitQueue[0];
      var mid := Signalled(s, w);
      MoveDrops(s, w, At(mid, w));
      MoveDrops(mid, t, Posts(w));
    }
  }

  lemma PostDrops<T>(s: State<T>, t: nat, c: Choice<T>)
    requires At(s, t).Posts? && At(s, t).w != t
    ensures Left(Next(s, t, c)) < Left(s)
  {
    var w := At(s, t).w;
    var mid := Posted(s, w);
    MoveDrops(s, w, At(mid, w));
    MoveDrops(mid, t, PostEnds(w));
  }

  lemma ReleaseDrops<T>(s: State<T>, t: nat, c: Choice<T>)
    requires At(s, t).Releases? && (s.lockQueue != [] ==> s.lockQueue[0] != t && InQueue(At(s, s.lockQueue[0])))
    ensures Left(Next(s, t, c)) < Left(s)
  {
    var moved := Move(s, t, At(Next(s, t, c), t));
    MoveDrops(s, t, At(moved, t));
    if At(s, t).wiped && s.lockQueue != [] {
      var u := s.lockQueue[0];
      MoveDrops(moved, u, At(Woken(moved, u), u));
    }
  }

  /** Each step of a thread that gets on, up to the one that takes an item, brings the total down. */
  lemma StepDrops<T>(s: State<T>, t: nat, c: Choice<T>)
    requires Inv(s) && GetsOn(s, t) && !At(s, t).Tests?
    ensures Left(Next(s, t, c)) < Left(s)
  {
    match At(s, t)
    case Signals =>
      assert WaitsRight(s, t);
      SignalDrops(s, t, c);
    case Posts(w) => PostDrops(s, t, c);
    case Releases(_, _) =>
      assert t in s.lockQueue <==> InQueue(At(s, t));
      if s.lockQueue != [] { assert s.lockQueue[0] in s.lockQueue; }
      ReleaseDrops(s, t, c);
    case _ => MoveDrops(s, t, At(Next(s, t, c), t));
  }

  /** Until an item is taken, the first one stays the first, and somebody wants it. */
  lemma StillAwaited<T>(s: State<T>, t: nat, c: Choice<T>)
    requires Inv(s) && Enabled(s, t) && s.list != [] && Awaited(s) && !At(s, t).Tests?
    ensures var s' := Next(s, t, c);
            Awaited(s') && s'.list != [] && s'.list[0] == s.list[0] && s'.removed == s.removed
  {
    var s' := Next(s, t, c);
    if s.waitQueue == [] {
      var u: nat :| Looks(At(s, u));
      if u != t { OthersStay(s, t, c, u); }
      assert Looks(At(s', u));
    } else if At(s, t).Signals? {
      var w := s.waitQueue[0];
      assert WaitsRight(s, w);
      OthersStay(s, t, c, w);
      assert Looks(At(s', w)) || s'.waitQueue != [];
    }
  }

  /** In every state in which there is an item and a thread wants one, steps are possible that take the
      first item out: no thread has to be waited for that cannot go on. */
  lemma {:induction false} CanDeliver<T>(s: State<T>) returns (steps: seq<(nat, Choice<T>)>, s': State<T>)
    requires Inv(s) && Awaited(s) && s.list != []
    ensures Leads(s, steps, s') && s'.removed == s.removed + [s.list[0]]
    decreases Left(s)
  {
    var t := NobodyForgotten(s);
    var next := Next(s, t, RemoveFront);
    if At(s, t).Tests? {
      steps, s' := [], next;
    } else {
      NextKeepsInv(s, t, RemoveFront);
      StepDrops(s, t, RemoveFront);
      StillAwaited(s, t, RemoveFront);
      steps, s' := CanDeliver(next);
    }
    assert ([(t, RemoveFront)] + steps)[1..] == steps;
    steps := [(t, RemoveFront)] + steps;
  }

  // ---------- the lock is a lock ----------

  function StageOf<T>(w: Where<T>): Locks.Where {
    if !Inside(w) then Locks.Outside
    else if w.Acquires? then Locks.Entered
    else if w.Releases? && w.wiped then Locks.Leaving
    else Locks.Noted
  }

  /** What `Locks` sees of the state. */
  function LockOf<T>(s: State<T>): Locks.Lock {
    Locks.Lock(s.value, s.lockHolder, map t | t in s.threads :: StageOf(s.threads[t]))
  }

  ghost predicate SameLock(l: Locks.Lock, l': Locks.Lock) {
    l.value == l'.value && l.lockHolder == l'.lockHolder && forall t: nat :: Locks.At(l, t) == Locks.At(l', t)
  }

  /** The step of the lock in the next step of thread `t`, if there is one. */
  function LockStep<T>(s: State<T>, t: nat): Option<Locks.Step> {
    match At(s, t)
    case Acquires(_, Testing) => if s.value > 0 then Some(Locks.Enter(t)) else None
    case Acquires(_, Entered) => Some(Locks.Note(t))
    case Releases(_, wiped) => Some(if wiped then Locks.Leave(t) else Locks.Wipe(t))
    case _ => None
  }

  lemma LockAt<T>(s: State<T>, u: nat)
    ensures Locks.At(LockOf(s), u) == StageOf(At(s, u))
  {
  }

  /** A thread that is signalled or woken stays outside the lock. */
  lemma OthersStage<T>(s: State<T>, t: nat, c: Choice<T>, u: nat)
    requires Queueing(s) && WaitsRight(s, u) && u != t
    ensures StageOf(At(Next(s, t, c), u)) == StageOf(At(s, u))
  {
    assert u in s.lockQueue <==> InQueue(At(s, u));
    OthersStay(s, t, c, u);
  }

  lemma StageKept<T>(s: State<T>, t: nat, c: Choice<T>, u: nat)
    requires Locked(s) && Queueing(s) && Waiting(s) && Live(s) && Enabled(s, t)
    ensures var l', step := LockOf(Next(s, t, c)), LockStep(s, t);
            Locks.At(l', u) == Locks.At(if step.Some? then Locks.Next(LockOf(s), step.value) else LockOf(s), u)
  {
    LockAt(s, u);
    LockAt(Next(s, t, c), u);
    if u == t {
      OwnStage(s, t, c);
    } else {
      assert WaitsRight(s, u);
      OthersStage(s, t, c, u);
    }
  }

  lemma OwnStage<T>(s: State<T>, t: nat, c: Choice<T>)
    requires Locked(s) && Queueing(s) && Waiting(s) && Live(s) && Enabled(s, t)
    ensures StageOf(At(Next(s, t, c), t)) == match LockStep(s, t)
              case None => StageOf(At(s, t))
              case Some(Enter(_)) => Locks.Entered
              case Some(Note(_)) => Locks.Noted
              case Some(Wipe(_)) => Locks.Leaving
              case Some(Leave(_)) => Locks.Outside
  {
    assert t in s.lockQueue <==> InQueue(At(s, t));
    assert WaitsRight(s, t);
    assert Inside(At(s, t)) <==> s.inside == Some(t);
  }

  /** Every step is a step of the lock of `Locks`, or leaves it as it is. */
  lemma StepsTheLock<T>(s: State<T>, t: nat, c: Choice<T>)
    requires Inv(s) && Enabled(s, t)
    ensures var l, l', step := LockOf(s), LockOf(Next(s, t, c)), LockStep(s, t);
            if step.Some? then Locks.Enabled(l, step.value) && SameLock(l', Locks.Next(l, step.value))
            else SameLock(l', l)
  {
    assert Inside(At(s, t)) <==> s.inside == Some(t);
    forall u: nat
      ensures var l', step := LockOf(Next(s, t, c)), LockStep(s, t);
              Locks.At(l', u) == Locks.At(if step.Some? then Locks.Next(LockOf(s), step.value) else LockOf(s), u)
    {
      StageKept(s, t, c, u);
    }
  }

  // ---------- one thread is woken, not each ----------

  lemma {:induction false} LeadsOn<T>(s: State<T>, first: seq<(nat, Choice<T>)>, s': State<T>,
                                      rest: seq<(nat, Choice<T>)>, s'': State<T>)
    requires Leads(s, first, s') && Leads(s', rest, s'')
    ensures Leads(s, first + rest, s'')
    decreases |first|
  {
    if first == [] {
      assert first + rest == rest;
    } else {
      LeadsOn(Next(s, first[0].0, first[0].1), first[1..], s', rest, s'');
      assert (first + rest)[1..] == first[1..] + rest;
    }
  }

  /** Some run comes to `s`. */
  ghost predicate Reached<T(!new)>(s: State<T>) {
    exists steps: seq<(nat, Choice<T>)> :: Leads(Start(), steps, s)
  }

  /** One more step of a run. */
  lemma Turn<T(!new)>(s: State<T>, t: nat, c: Choice<T>)
    returns (s': State<T>)
    requires Reached(s) && Enabled(s, t)
    ensures s' == Next(s, t, c) && Reached(s')
  {
    var steps :| Leads(Start(), steps, s);
    s' := Next(s, t, c);
    assert Leads(s', [], s');
    assert [(t, c)][1..] == [];
    LeadsOn(Start(), steps, s, [(t, c)], s');
  }

  /** The state with thread `t` in the lock, at `w`. */
  function Held<T>(s: State<T>, t: nat, w: Where<T>): State<T> {
    Move(s, t, w).(value := 0, inside := Some(t), lockHolder := Some(t))
  }

  /** The state with thread `t` out of it. */
  function Out<T>(s: State<T>, t: nat, w: Where<T>): State<T> {
    Move(s, t, w).(value := 1, inside := None, lockHolder := None)
  }

  lemma Enters<T(!new)>(s: State<T>, t: nat, c: Choice<T>)
    returns (s': State<T>)
    requires Reached(s) && s.value == 1 && At(s, t).Outside?
    ensures s' == Held(s, t, if c.Append? then Appends(c.x) else Tests) && Reached(s')
  {
    s' := Turn(s, t, c);
    s' := Turn(s', t, c);
    s' := Turn(s', t, c);
  }

  lemma Leaves<T(!new)>(s: State<T>, t: nat, waiting: bool)
    returns (s': State<T>)
    requires Reached(s) && s.value == 0 && s.lockQueue == [] && At(s, t) == Releases(waiting, false)
    ensures s' == Out(s, t, if waiting then AtP(false, false) else Outside) && Reached(s')
  {
    s' := Turn(s, t, RemoveFront);
    s' := Turn(s', t, RemoveFront);
  }

  /** A thread finds the list empty, waits and falls asleep. */
  lemma GoesToWait<T(!new)>(s: State<T>, t: nat)
    returns (s': State<T>)
    requires Reached(s) && s.value == 1 && s.lockQueue == [] && s.list == [] && At(s, t).Outside?
    ensures s' == Out(s, t, Asleep(false)).(waitQueue := s.waitQueue + [t]) && Reached(s')
  {
    s' := Enters(s, t, RemoveFront);
    s' := Turn(s', t, RemoveFront);
    s' := Leaves(s', t, true);
    s' := Turn(s', t, RemoveFront);
  }

  /** In the lock, `Signal` wakes `w`, the first that waits. */
  lemma SignalsFirst<T(!new)>(s: State<T>, t: nat, w: nat) returns (s': State<T>)
    requires Reached(s) && At(s, t).Signals? && s.waitQueue != [] && s.waitQueue[0] == w && At(s, w) == Asleep(false)
    ensures s' == Move(Move(s, w, AtP(true, true)), t, Releases(false, false)).(waitQueue := s.waitQueue[1..])
            && Reached(s')
  {
    s' := Turn(s, t, RemoveFront);
    s' := Turn(s', t, RemoveFront);
    s' := Turn(s', t, RemoveFront);
  }

  /** Thread `t` appends `x` and wakes `w`; it is still in the lock. */
  lemma Wakes<T(!new)>(s: State<T>, t: nat, x: T, w: nat) returns (s': State<T>)
    requires Reached(s) && s.value == 1 && At(s, t).Outside?
    requires s.waitQueue != [] && s.waitQueue[0] == w && At(s, w) == Asleep(false)
    ensures s' == Held(Move(s, w, AtP(true, true)), t, Releases(false, false)).(
              list := s.list + [x], appended := s.appended + [x], waitQueue := s.waitQueue[1..])
            && Reached(s')
  {
    s' := Enters(s, t, Append(x));
    s' := Turn(s', t, RemoveFront);
    s' := SignalsFirst(s', t, w);
  }

  /** A thread that has been signalled finds the lock taken, and sleeps in its queue. */
  lemma SleepsAgain<T(!new)>(s: State<T>, w: nat)
    returns (s': State<T>)
    requires Reached(s) && s.value == 0 && At(s, w) == AtP(true, true)
    ensures s' == Move(s, w, Acquires(ToGoOn, Sleeping)).(lockQueue := s.lockQueue + [w]) && Reached(s')
  {
    s' := Turn(s, w, RemoveFront);
    s' := Turn(s', w, RemoveFront);
  }

  lemma ThreeWait() returns (s: State<int>)
    ensures Reached(s)
    ensures s == State([], 1, [], None, [0, 1, 2], map[0 := Asleep(false), 1 := Asleep(false), 2 := Asleep(false)],
                       None, [], [])
  {
    s := Start();
    assert Leads(s, [], s);
    s := GoesToWait(s, 0);
    s := GoesToWait(s, 1);
    s := GoesToWait(s, 2);
  }

  lemma OneSignalled() returns (s: State<int>)
    ensures Reached(s)
    ensures s == State([7], 1, [], None, [1, 2],
                       map[0 := AtP(true, true), 1 := Asleep(false), 2 := Asleep(false), 3 := Outside], None, [7], [])
  {
    s := ThreeWait();
    s := Wakes(s, 3, 7, 0);
    s := Leaves(s, 3, false);
  }

  lemma TwoSignalled() returns (s: State<int>)
    ensures Reached(s)
    ensures s == State([7, 8], 0, [], Some(3), [2],
                       map[0 := AtP(true, true), 1 := AtP(true, true), 2 := Asleep(false), 3 := Releases(false, false)],
                       Some(3), [7, 8], [])
  {
    s := OneSignalled();
    s := Wakes(s, 3, 8, 1);
  }

  lemma BothInQueue() returns (s: State<int>)
    ensures Reached(s)
    ensures s == State([7, 8], 0, [0, 1], None, [2],
                       map[0 := Acquires(ToGoOn, Sleeping), 1 := Acquires(ToGoOn, Sleeping), 2 := Asleep(false),
                           3 := Releases(false, true)],
                       Some(3), [7, 8], [])
  {
    s := TwoSignalled();
    s := SleepsAgain(s, 0);
    s := SleepsAgain(s, 1);
    s := Turn(s, 3, RemoveFront);
  }

  /** Not every thread that has been signalled can go on once the lock is free. In a run in which threads 0,
      1 and 2 wait and thread 3 appends two items, 0 and 1, both signalled, come back while 3 is in the lock
      for the second time. Its `V` wakes thread 0 only. */
  lemma OneWokenOnly() returns (s: State<int>, s': State<int>)
    ensures Reached(s) && At(s, 3) == Releases(false, true) && s.lockQueue == [0, 1]
    ensures s' == Next(s, 3, RemoveFront) && s'.value == 1 && s'.list == [7, 8] && s'.waitQueue == [2]
    ensures 0 in Claimers(s'.threads) && Enabled(s', 0)
    ensures 1 in Claimers(s'.threads) && !Enabled(s', 1)
    ensures !Enabled(s', 2) && !Enabled(s, 0) && !Enabled(s, 1)
  {
    s := BothInQueue();
    s' := Next(s, 3, RemoveFront);
  }
}
