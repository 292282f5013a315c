/** NTHU-OS-Pthreads/ts_queue.hpp: a bounded queue in a ring buffer, shared by any number of threads. */
module TsQueues {
  // ---------- the ring buffer, as it is used with the mutex held ----------

  /** `i % n` for an index that has gone round at most once. */
  function Wrap(i: nat, n: nat): nat {
    if i < n then i else i - n
  }

  lemma WrapIsMod(i: nat, n: nat)
    requires i < 2 * n
    ensures i % n == Wrap(i, n)
  {
    if i >= n {
      var q := i / n;
      assert q >= 2 ==> q * n >= 2 * n;
      assert q <= 0 ==> q * n <= 0;
      assert i == q * n + i % n;
    }
  }

  /** The `i`th place after `head` in a ring of `n`, counting from 0. */
  function Place(head: nat, n: nat, i: nat): (p: nat)
    requires head < n && i <= n
    ensures p < n
  {
    Wrap(Wrap(head + 1, n) + i, n)
  }

  /** The `size` places of a ring that follow place `head`. */
  function Window<T>(b: seq<T>, head: nat, size: nat): (q: seq<T>)
    requires head < |b| && size <= |b|
    ensures |q| == size
  {
    seq(size, i requires 0 <= i < size => b[Place(head, |b|, i)])
  }

  lemma Places(head: nat, n: nat, i: nat, size: nat)
    requires head < n && i < size <= n
    ensures size < n ==> Place(head, n, i) != Place(head, n, size)
    ensures Place(head, n, i + 1) == Place(Wrap(head + 1, n), n, i)
  {
  }

  /** A new item goes to the place after the window. */
  lemma WindowGrows<T>(b: seq<T>, head: nat, size: nat, x: T)
    requires head < |b| && size < |b|
    ensures Window(b[Place(head, |b|, size) := x], head, size + 1) == Window(b, head, size) + [x]
  {
    forall i | 0 <= i < size ensures Place(head, |b|, i) != Place(head, |b|, size) {
      Places(head, |b|, i, size);
    }
  }

  /** The oldest item is in the place after `head`; without it the window starts one place on. */
  lemma WindowShrinks<T>(b: seq<T>, head: nat, size: nat)
    requires head < |b| && 0 < size <= |b|
    ensures Window(b, head, size) == [b[Wrap(head + 1, |b|)]] + Window(b, Wrap(head + 1, |b|), size - 1)
  {
    var w, v := Window(b, head, size), Window(b, Wrap(head + 1, |b|), size - 1);
    forall i | 0 <= i < size - 1 ensures w[i + 1] == v[i] {
      Places(head, |b|, i, size);
    }
    assert w == [w[0]] + v;
  }

  class Ring<T(0)> {
    const buffer: array<T>
    var size: nat
    var head: nat
    var tail: nat

    ghost predicate Valid()
      reads this, buffer
    {
      && size <= buffer.Length && head < buffer.Length
      && tail == Place(head, buffer.Length, size)
    }

    /** The queue: it starts one place after `head`. */
    ghost function Contents(): (q: seq<T>)
      requires Valid()
      reads this, buffer
      ensures |q| == size
    {
      Window(buffer[..], head, size)
    }

    constructor (bufferSize: nat)
      requires bufferSize > 0
      ensures Valid() && fresh(buffer) && buffer.Length == bufferSize && Contents() == []
    {
      buffer := new T[bufferSize];
      size, head, tail := 0, bufferSize - 1, 0;
    }

    /** The critical section of `enqueue`, past the wait. */
    method Put(item: T)
      requires Valid() && size < buffer.Length
      modifies this, buffer
      ensures Valid() && Contents() == old(Contents()) + [item]
    {
      WindowGrows(buffer[..], head, size, item);
      buffer[tail] := item;
      WrapIsMod(tail + 1, buffer.Length);
      tail := (tail + 1) % buffer.Length;
      size := size + 1;
    }

    /** The critical section of `dequeue`, past the wait. */
    method Take() returns (item: T)
      requires Valid() && size > 0
      modifies this
      ensures Valid() && old(Contents()) == [item] + Contents()
    {
      WindowShrinks(buffer[..], head, size);
      WrapIsMod(head + 1, buffer.Length);
      head := (head + 1) % buffer.Length;
      item := buffer[head];
      size := size - 1;
    }
  }

  // ---------- the monitor: one mutex and two condition variables ----------

  /** Where a thread is in `enqueue(x)` or `dequeue()`. Between `pthread_mutex_lock` and the next wait or
      unlock it holds the mutex, so that stretch is one step. */
  datatype Where<T> =
    | Outside
    | PutWaits(x: T)
    | PutWoken(x: T)
    | TakeWaits
    | TakeWoken

  /** `put` and `taken` record what has gone in and come out; threads not in `threads` are outside. */
  datatype Monitor<T> = Monitor(capacity: nat, queue: seq<T>, threads: map<nat, Where<T>>, put: seq<T>, taken: seq<T>)

  datatype Step<T> =
    | Enqueue(t: nat, x: T, signalled: nat)
    | Dequeue(t: nat, signalled: nat)
    | Spurious(t: nat)

  /** `pthread_cond_signal`: wakes one of the threads that wait, if there are any. */
  ghost predicate Signal<T>(threads: map<nat, Where<T>>, takers: bool, t: nat, threads': map<nat, Where<T>>) {
    if (if takers then SomeTakeWaits(threads) else SomePutWaits(threads)) then
      && t in threads
      && (if takers then threads[t].TakeWaits? else threads[t].PutWaits?)
      && threads' == threads[t := if takers then TakeWoken else PutWoken(threads[t].x)]
    else threads' == threads
  }

  ghost predicate Next<T>(m: Monitor<T>, s: Step<T>, m': Monitor<T>) {
    match s
    case Enqueue(t, x, signalled) =>
      // a thread that comes in or comes back from a wait takes the mutex and tests the condition
      && (Was(m.threads, t).Outside? || Was(m.threads, t) == PutWoken(x))
      && if |m.queue| == m.capacity then m' == m.(threads := m.threads[t := PutWaits(x)])
         else
           && Signal(m.threads[t := Outside], true, signalled, m'.threads)
           && m' == m.(threads := m'.threads, queue := m.queue + [x], put := m.put + [x])
    case Dequeue(t, signalled) =>
      && (Was(m.threads, t).Outside? || Was(m.threads, t).TakeWoken?)
      && if |m.queue| == 0 then m' == m.(threads := m.threads[t := TakeWaits])
         else
           && Signal(m.threads[t := Outside], false, signalled, m'.threads)
           && m' == m.(threads := m'.threads, queue := m.queue[1..], taken := m.taken + [m.queue[0]])
    case Spurious(t) =>
      match Was(m.threads, t)
      case PutWaits(x) => m' == m.(threads := m.threads[t := PutWoken(x)])
      case TakeWaits => m' == m.(threads := m.threads[t := TakeWoken])
      case _ => false
  }

  function WokenPutters<T>(threads: map<nat, Where<T>>): set<nat> {
    set t | t in threads && threads[t].PutWoken?
  }

  function WokenTakers<T>(threads: map<nat, Where<T>>): set<nat> {
    set t | t in threads && threads[t].TakeWoken?
  }

  ghost predicate SomeTakeWaits<T>(threads: map<nat, Where<T>>) {
    exists t :: t in threads && threads[t].TakeWaits?
  }

  ghost predicate SomePutWaits<T>(threads: map<nat, Where<T>>) {
    exists t :: t in threads && threads[t].PutWaits?
  }

  /** What holds whenever the mutex is free: the queue is a FIFO within its bound, and no wakeup is lost.
      Where a thread waits to take, there are at least as many woken takers as items, and the same for
      threads that wait to put and free places. */
  ghost predicate Inv<T>(m: Monitor<T>) {
    && |m.queue| <= m.capacity
    && m.taken + m.queue == m.put
    && (SomeTakeWaits(m.threads) ==> |m.queue| <= |WokenTakers(m.threads)|)
    && (SomePutWaits(m.threads) ==> m.capacity - |m.queue| <= |WokenPutters(m.threads)|)
  }

  /** A new queue, with all threads outside. */
  ghost predicate Init<T>(m: Monitor<T>) {
    m.queue == [] && m.put == [] && m.taken == [] && m.threads == map[]
  }

  function Was<T>(threads: map<nat, Where<T>>, t: nat): Where<T> {
    if t in threads then threads[t] else Outside
  }

  /** What moving one thread does to the waiting and the woken takers. */
  lemma MovedTaker<T>(threads: map<nat, Where<T>>, t: nat, w: Where<T>)
    ensures |WokenTakers(threads[t := w])|
         == |WokenTakers(threads)| - (if Was(threads, t).TakeWoken? then 1 else 0) + (if w.TakeWoken? then 1 else 0)
    ensures SomeTakeWaits(threads[t := w]) ==> SomeTakeWaits(threads) || w.TakeWaits?
  {
    assert WokenTakers(threads[t := w]) ==
      if w.TakeWoken? then WokenTakers(threads) + {t} else WokenTakers(threads) - {t};
  }

  lemma MovedPutter<T>(threads: map<nat, Where<T>>, t: nat, w: Where<T>)
    ensures |WokenPutters(threads[t := w])|
         == |WokenPutters(threads)| - (if Was(threads, t).PutWoken? then 1 else 0) + (if w.PutWoken? then 1 else 0)
    ensures SomePutWaits(threads[t := w]) ==> SomePutWaits(threads) || w.PutWaits?
  {
    assert WokenPutters(threads[t := w]) ==
      if w.PutWoken? then WokenPutters(threads) + {t} else WokenPutters(threads) - {t};
  }

  lemma EnqueueKeepsInv<T>(m: Monitor<T>, s: Step<T>, m': Monitor<T>)
    requires Inv(m) && s.Enqueue? && Next(m, s, m')
    ensures Inv(m')
  {
    if |m.queue| == m.capacity {
      MovedTaker(m.threads, s.t, PutWaits(s.x));
      MovedPutter(m.threads, s.t, PutWaits(s.x));
    } else {
      var mid := m.threads[s.t := Outside];
      MovedTaker(m.threads, s.t, Outside);
      MovedPutter(m.threads, s.t, Outside);
      if SomeTakeWaits(mid) {
        MovedTaker(mid, s.signalled, TakeWoken);
        MovedPutter(mid, s.signalled, TakeWoken);
      }
      assert m.taken + (m.queue + [s.x]) == m.put + [s.x];
    }
  }

  lemma DequeueKeepsInv<T>(m: Monitor<T>, s: Step<T>, m': Monitor<T>)
    requires Inv(m) && s.Dequeue? && Next(m, s, m')
    ensures Inv(m')
  {
    if |m.queue| == 0 {
      MovedTaker(m.threads, s.t, TakeWaits);
      MovedPutter(m.threads, s.t, TakeWaits);
    } else {
      var mid := m.threads[s.t := Outside];
      MovedTaker(m.threads, s.t, Outside);
      MovedPutter(m.threads, s.t, Outside);
      if SomePutWaits(mid) {
        MovedTaker(mid, s.signalled, PutWoken(mid[s.signalled].x));
        MovedPutter(mid, s.signalled, PutWoken(mid[s.signalled].x));
      }
      assert m.taken + [m.queue[0]] + m.queue[1..] == m.put;
    }
  }

  lemma SpuriousKeepsInv<T>(m: Monitor<T>, s: Step<T>, m': Monitor<T>)
    requires Inv(m) && s.Spurious? && Next(m, s, m')
    ensures Inv(m')
  {
    var w := if Was(m.threads, s.t).PutWaits? then PutWoken(Was(m.threads, s.t).x) else TakeWoken;
    MovedTaker(m.threads, s.t, w);
    MovedPutter(m.threads, s.t, w);
  }

  /** A run of the monitor from a new queue. */
  ghost predicate Run<T>(ms: seq<Monitor<T>>, steps: seq<Step<T>>) {
    && |ms| == |steps| + 1 && Init(ms[0])
    && forall i :: 0 <= i < |steps| ==> Next(ms[i], steps[i], ms[i + 1])
  }

  /** In every interleaving of any number of threads: items come out in the order they went in, and the
      wakeups are accounted for. */
  lemma {:induction false} EveryRun<T>(ms: seq<Monitor<T>>, steps: seq<Step<T>>, n: nat)
    requires Run(ms, steps) && n < |ms|
    ensures Inv(ms[n]) && ms[n].taken <= ms[n].put
  {
    if n > 0 {
      EveryRun(ms, steps, n - 1);
      match steps[n - 1]
      case Enqueue(_, _, _) => EnqueueKeepsInv(ms[n - 1], steps[n - 1], ms[n]);
      case Dequeue(_, _) => DequeueKeepsInv(ms[n - 1], steps[n - 1], ms[n]);
      case Spurious(_) => SpuriousKeepsInv(ms[n - 1], steps[n - 1], ms[n]);
    }
  }

  // ---------- what a thread gets done ----------

  /** A signal changes one waiting thread of its side into a woken one, if there are any, and nothing else. */
  ghost predicate WokeOne<T>(threads: map<nat, Where<T>>, takers: bool, threads': map<nat, Where<T>>) {
    if (exists u :: u in threads && IsWaiting(threads[u], takers)) then
      exists u :: u in threads && IsWaiting(threads[u], takers)
                  && threads' == threads[u := if takers then TakeWoken else PutWoken(threads[u].x)]
    else threads' == threads
  }

  predicate IsWaiting<T>(w: Where<T>, takers: bool) {
    if takers then w.TakeWaits? else w.PutWaits?
  }

  /** Thread `t` has taken the oldest item and left, waking one that waits for room. */
  ghost predicate Took<T>(m: Monitor<T>, t: nat, m': Monitor<T>) {
    && m.queue != [] && m'.taken == m.taken + [m.queue[0]] && m'.put == m.put && m'.capacity == m.capacity
    && Was(m'.threads, t).Outside? && WokeOne(m.threads[t := Outside], false, m'.threads)
  }

  /** Thread `t` has put `x` in and left, waking one that waits for an item. */
  ghost predicate Put<T>(m: Monitor<T>, t: nat, x: T, m': Monitor<T>) {
    && |m.queue| < m.capacity && m'.put == m.put + [x] && m'.taken == m.taken && m'.capacity == m.capacity
    && Was(m'.threads, t).Outside? && WokeOne(m.threads[t := Outside], true, m'.threads)
  }

  /** Thread `t` waits, and nothing else has changed. */
  ghost predicate WentToWait<T>(m: Monitor<T>, t: nat, w: Where<T>, m': Monitor<T>) {
    m' == m.(threads := m.threads[t := w])
  }

  /** A thread that calls `dequeue`, or has been woken in it, can go on: it takes an item exactly if there is
      one, and waits again otherwise. */
  lemma CanDequeue<T>(m: Monitor<T>, t: nat) returns (signalled: nat, m': Monitor<T>)
    requires Inv(m) && (Was(m.threads, t).Outside? || Was(m.threads, t).TakeWoken?)
    ensures Next(m, Dequeue(t, signalled), m') && Inv(m')
    ensures if m.queue != [] then Took(m, t, m') else WentToWait(m, t, TakeWaits, m')
  {
    signalled := 0;
    if m.queue == [] {
      m' := m.(threads := m.threads[t := TakeWaits]);
    } else {
      var mid := m.threads[t := Outside];
      m' := m.(threads := mid, queue := m.queue[1..], taken := m.taken + [m.queue[0]]);
      if SomePutWaits(mid) {
        signalled :| signalled in mid && mid[signalled].PutWaits?;
        assert IsWaiting(mid[signalled], false);
        m' := m'.(threads := mid[signalled := PutWoken(mid[signalled].x)]);
      } else {
        assert forall u :: u in mid ==> !IsWaiting(mid[u], false);
      }
    }
    DequeueKeepsInv(m, Dequeue(t, signalled), m');
  }

  /** The same for `enqueue`: an item goes in exactly if there is room, and it is the one that the thread
      came with. */
  lemma CanEnqueue<T>(m: Monitor<T>, t: nat, x: T) returns (signalled: nat, m': Monitor<T>)
    requires Inv(m) && (Was(m.threads, t).Outside? || Was(m.threads, t) == PutWoken(x))
    ensures Next(m, Enqueue(t, x, signalled), m') && Inv(m')
    ensures if |m.queue| < m.capacity then Put(m, t, x, m') else WentToWait(m, t, PutWaits(x), m')
  {
    signalled := 0;
    if |m.queue| == m.capacity {
      m' := m.(threads := m.threads[t := PutWaits(x)]);
    } else {
      var mid := m.threads[t := Outside];
      m' := m.(threads := mid, queue := m.queue + [x], put := m.put + [x]);
      if SomeTakeWaits(mid) {
        signalled :| signalled in mid && mid[signalled].TakeWaits?;
        assert IsWaiting(mid[signalled], true);
        m' := m'.(threads := mid[signalled := TakeWoken]);
      } else {
        assert forall u :: u in mid ==> !IsWaiting(mid[u], true);
      }
    }
    EnqueueKeepsInv(m, Enqueue(t, x, signalled), m');
  }

  /** Nothing else can come of a step: whoever is signalled, a thread takes, puts or waits as it should, a
      woken putter with its own item; and only a waiting thread wakes without a signal. */
  lemma StepDoes<T>(m: Monitor<T>, s: Step<T>, m': Monitor<T>)
    requires Inv(m) && Next(m, s, m')
    ensures s.Dequeue? ==> (Was(m.threads, s.t).Outside? || Was(m.threads, s.t).TakeWoken?)
                           && if m.queue != [] then Took(m, s.t, m') else WentToWait(m, s.t, TakeWaits, m')
    ensures s.Enqueue? ==> (Was(m.threads, s.t).Outside? || Was(m.threads, s.t) == PutWoken(s.x))
                           && if |m.queue| < m.capacity
                             then Put(m, s.t, s.x, m') else WentToWait(m, s.t, PutWaits(s.x), m')
    ensures s.Spurious? ==> (Was(m.threads, s.t).TakeWaits? && WentToWait(m, s.t, TakeWoken, m'))
                            || (Was(m.threads, s.t).PutWaits? && WentToWait(m, s.t, PutWoken(m.threads[s.t].x), m'))
  {
    if s.Dequeue? && m.queue != [] {
      SignalWakesOne(m.threads[s.t := Outside], false, s.signalled, m'.threads);
    } else if s.Enqueue? && |m.queue| < m.capacity {
      SignalWakesOne(m.threads[s.t := Outside], true, s.signalled, m'.threads);
    }
  }

  lemma SignalWakesOne<T>(threads: map<nat, Where<T>>, takers: bool, t: nat, threads': map<nat, Where<T>>)
    requires Signal(threads, takers, t, threads')
    ensures WokeOne(threads, takers, threads')
  {
    if exists u :: u in threads && IsWaiting(threads[u], takers) {
      assert IsWaiting(threads[t], takers);
    }
  }

  /** A waiting thread may wake without a signal. */
  lemma MayWake<T>(m: Monitor<T>, t: nat)
    requires Was(m.threads, t).TakeWaits? || Was(m.threads, t).PutWaits?
    ensures exists m' :: Next(m, Spurious(t), m')
  {
    var w := if m.threads[t].TakeWaits? then TakeWoken else PutWoken(m.threads[t].x);
    assert Next(m, Spurious(t), m.(threads := m.threads[t := w]));
  }

  /** Nobody sleeps through what he waits for: while a taker waits and there is an item, some woken taker
      can go on, and takes the oldest item when it does. */
  lemma TakerComes<T>(m: Monitor<T>) returns (t: nat, signalled: nat, m': Monitor<T>)
    requires Inv(m) && SomeTakeWaits(m.threads) && m.queue != []
    ensures Was(m.threads, t).TakeWoken? && Next(m, Dequeue(t, signalled), m') && Took(m, t, m')
  {
    assert WokenTakers(m.threads) != {};
    t :| t in WokenTakers(m.threads);
    signalled, m' := CanDequeue(m, t);
  }

  /** While a putter waits and there is room, some woken putter can go on, and puts its item in. */
  lemma PutterComes<T>(m: Monitor<T>) returns (t: nat, x: T, signalled: nat, m': Monitor<T>)
    requires Inv(m) && SomePutWaits(m.threads) && |m.queue| < m.capacity
    ensures Was(m.threads, t) == PutWoken(x) && Next(m, Enqueue(t, x, signalled), m') && Put(m, t, x, m')
  {
    assert WokenPutters(m.threads) != {};
    t :| t in WokenPutters(m.threads);
    x := m.threads[t].x;
    signalled, m' := CanEnqueue(m, t, x);
  }
}
