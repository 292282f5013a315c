/** threads/synch.cc, `Lock`: a semaphore of one, and a note of the holder that is written after `P` is
    over and wiped before `V` begins. */
module Locks {
  import opened Collections

  /** Where a thread is: not past `P`; past `P` but not noted yet; noted; or wiped and not through `V`. */
  datatype Where = Outside | Entered | Noted | Leaving

  datatype Lock = Lock(value: nat, lockHolder: Option<nat>, threads: map<nat, Where>)

  function New(): Lock {
    Lock(1, None, map[])
  }

  function At(l: Lock, t: nat): Where {
    if t in l.threads then l.threads[t] else Outside
  }

  datatype Step = Enter(t: nat) | Note(t: nat) | Wipe(t: nat) | Leave(t: nat)

  /** `Acquire` is Enter then Note, `Release` is Wipe then Leave; other threads may run in between. */
  predicate Enabled(l: Lock, s: Step) {
    match s
    case Enter(t) => At(l, t).Outside? && l.value > 0
    case Note(t) => At(l, t).Entered?
    // by convention only the thread that acquired the lock releases it
    case Wipe(t) => At(l, t).Noted?
    case Leave(t) => At(l, t).Leaving?
  }

  function Next(l: Lock, s: Step): Lock {
    match s
    case Enter(t) => l.(value := if l.value > 0 then l.value - 1 else 0, threads := l.threads[t := Entered])
    case Note(t) => l.(lockHolder := Some(t), threads := l.threads[t := Noted])
    case Wipe(t) => l.(lockHolder := None, threads := l.threads[t := Leaving])
    case Leave(t) => l.(value := l.value + 1, threads := l.threads[t := Outside])
  }

  /** The threads between the end of `P` and the `V` of `Release`. */
  function Inside(threads: map<nat, Where>): set<nat> {
    set t | t in threads && !threads[t].Outside?
  }

  /** One thread at most is inside, and the semaphore is free exactly when none is. The holder, if noted,
      is that thread; it may be inside without being noted, on the way in and on the way out. */
  ghost predicate Inv(l: Lock) {
    && l.value + |Inside(l.threads)| == 1
    && (forall t: nat :: At(l, t).Noted? <==> l.lockHolder == Some(t))
  }

  lemma MoveInside(threads: map<nat, Where>, t: nat, w: Where)
    ensures Inside(threads[t := w]) == if w.Outside? then Inside(threads) - {t} else Inside(threads) + {t}
  {
  }

  lemma {:induction false} OnlyOne(s: set<nat>, t: nat, u: nat)
    requires |s| <= 1 && t in s && u in s
    ensures t == u
  {
    assert |s - {t}| == 0;
    assert u !in s - {t};
  }

  /** No two threads are ever past `Acquire` at once, and the ASSERT of `Release` holds. */
  lemma MutualExclusion(l: Lock, t: nat, u: nat)
    requires Inv(l) && !At(l, t).Outside? && !At(l, u).Outside?
    ensures t == u && l.value == 0
    ensures l.lockHolder.Some? ==> l.lockHolder.value == t
    ensures At(l, t).Noted? ==> l.lockHolder == Some(t)
  {
    assert t in Inside(l.threads) && u in Inside(l.threads);
    OnlyOne(Inside(l.threads), t, u);
    if l.lockHolder.Some? {
      var h := l.lockHolder.value;
      assert At(l, h).Noted?;
      OnlyOne(Inside(l.threads), t, h);
    }
  }

  lemma NextKeepsInv(l: Lock, s: Step)
    requires Inv(l) && Enabled(l, s)
    ensures Inv(Next(l, s))
  {
    MoveInside(l.threads, s.t, Next(l, s).threads[s.t]);
    if !At(l, s.t).Outside? {
      MutualExclusion(l, s.t, s.t);
    }
    forall t: nat ensures At(Next(l, s), t).Noted? <==> Next(l, s).lockHolder == Some(t) {
      if At(l, t).Noted? && !At(l, s.t).Outside? {
        MutualExclusion(l, t, s.t);
      }
    }
  }

  ghost predicate Run(ls: seq<Lock>, steps: seq<Step>) {
    && |ls| == |steps| + 1 && ls[0] == New()
    && forall i :: 0 <= i < |steps| ==> Enabled(ls[i], steps[i]) && ls[i + 1] == Next(ls[i], steps[i])
  }

  lemma {:induction false} EveryRun(ls: seq<Lock>, steps: seq<Step>, n: nat)
    requires Run(ls, steps) && n < |ls|
    ensures Inv(ls[n])
  {
    if n > 0 {
      EveryRun(ls, steps, n - 1);
      NextKeepsInv(ls[n - 1], steps[n - 1]);
    }
  }
}
