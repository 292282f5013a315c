/** The steps of `Levels` as threads/thread.cc, threads/scheduler.cc and threads/synch.cc carry them out:
    by updating the current thread, the ready list, the thread to be destroyed, the semaphores and the
    interrupt level. Where a thread can be switched away from its method ends; what it does once it is back
    is the next method, which finds its local `oldLevel` in `saved`. */
module Processors {
  import opened Collections
  import K = Kernels
  import L = Levels

  class Processor {
    var currentThread: nat
    var threads: map<nat, K.Thread>
    var readyList: seq<nat>
    var toBeDestroyed: Option<nat>
    var semaphores: map<nat, K.Semaphore>
    var interruptsOn: bool
    var saved: map<nat, bool>
    /** Has there been a switch, and has the thread switched to not gone on yet? And who is gone? */
    ghost var resuming: bool
    ghost var deleted: set<nat>

    /** The state as the runs of the kernel see it. */
    ghost function Kernel(): K.Kernel
      reads this
    {
      K.Kernel(currentThread, threads, readyList, if toBeDestroyed.Some? then {toBeDestroyed.value} else {},
               resuming, deleted, semaphores)
    }

    ghost function State(): L.State
      reads this
    {
      L.State(Kernel(), interruptsOn, saved)
    }

    ghost predicate Valid()
      reads this
    {
      L.Inv(State())
    }

    /** The main thread runs, and the semaphores have their first values. */
    constructor (initial: map<nat, nat>)
      ensures Valid() && L.Init(State()) && !interruptsOn
      ensures semaphores.Keys == initial.Keys && forall s :: s in initial ==> semaphores[s].value == initial[s]
    {
      currentThread := 0;
      threads := map[0 := K.Thread(K.Running, K.Computing)];
      readyList, toBeDestroyed, interruptsOn, saved := [], None, false, map[];
      semaphores := map s | s in initial :: K.Semaphore(initial[s], [], initial[s], 0, 0);
      resuming, deleted := false, {};
      new;
      K.InitInv(Kernel());
    }

    /** `Interrupt::SetLevel` by the running thread. */
    method SetLevel(now: bool) returns (old_: bool)
      requires Valid() && L.Going(State(), currentThread)
      modifies `interruptsOn
      ensures Valid() && interruptsOn == now && old_ == old(interruptsOn)
      ensures State() == L.Next(old(State()), L.SetLevel(now))
    {
      L.NextKeepsInv(State(), L.SetLevel(now));
      old_ := interruptsOn;
      interruptsOn := now;
    }

    /** `Scheduler::ReadyToRun`. */
    method ReadyToRun(t: nat)
      requires !interruptsOn && t in threads && t !in readyList
      modifies `threads, `readyList
      ensures Kernel() == K.ReadyToRun(old(Kernel()), t)
    {
      threads := threads[t := threads[t].(status := K.Ready)];
      readyList := readyList + [t];
    }

    /** `Scheduler::FindNextToRun`. */
    method FindNextToRun() returns (next: Option<nat>)
      requires !interruptsOn
      modifies `readyList
      ensures next.Some? <==> old(readyList) != []
      ensures old(readyList) == (if next.Some? then [next.value] else []) + readyList
    {
      if readyList == [] {
        return None;
      }
      next := Some(readyList[0]);
      readyList := readyList[1..];
    }

    /** `Scheduler::Run`, up to the switch. */
    method Run(next: nat, finishing: bool)
      requires !interruptsOn && next in threads
      requires finishing ==> toBeDestroyed == None
      modifies `toBeDestroyed, `currentThread, `threads, `resuming
      ensures Kernel() == K.Run(old(Kernel()), next, finishing)
    {
      if finishing {
        toBeDestroyed := Some(currentThread);
      }
      currentThread := next;
      threads := threads[next := threads[next].(status := K.Running)];
      resuming := true;
    }

    /** What the thread switched to does: it finds interrupts off, destroys a thread that has finished, and
        goes back to its own level at the end of `Yield` or in `Begin`; in `P` it stays in the loop. */
    method Resume()
      requires Valid() && resuming
      modifies `toBeDestroyed, `threads, `resuming, `deleted, `interruptsOn
      ensures Valid() && State() == L.Next(old(State()), L.Do(K.Resume))
      ensures !old(interruptsOn) && !resuming && toBeDestroyed == None
      ensures currentThread in threads && currentThread in saved
      ensures interruptsOn <==> threads[currentThread].phase.Computing? && saved[currentThread]
      ensures forall t :: t in threads <==> t in old(threads) && old(toBeDestroyed) != Some(t)
      ensures forall t :: t in threads ==> threads[t] == old(threads)[t]
    {
      L.NextKeepsInv(State(), L.Do(K.Resume));
      L.OffInSwitch(State(), L.Do(K.Resume));
      L.Resumes(State());
      K.AssertsHold(Kernel(), K.Resume);
      ghost var mid := State().(kernel := K.Next(Kernel(), K.Resume));
      CheckToBeDestroyed();
      assert State() == mid;
      if threads[currentThread].phase.Computing? {
        interruptsOn := saved[currentThread];
      }
    }

    method CheckToBeDestroyed()
      requires resuming && toBeDestroyed != Some(currentThread)
      modifies `toBeDestroyed, `threads, `resuming, `deleted
      ensures Kernel() == K.Next(old(Kernel()), K.Resume) && !resuming && toBeDestroyed == None
      ensures forall t :: t in threads <==> t in old(threads) && old(toBeDestroyed) != Some(t)
      ensures forall t :: t in threads ==> threads[t] == old(threads)[t]
    {
      ghost var k := Kernel();
      if toBeDestroyed != None {
        threads := map t | t in threads && t != toBeDestroyed.value :: threads[t];
        deleted := deleted + {toBeDestroyed.value};
        toBeDestroyed := None;
      }
      resuming := false;
      assert threads == K.Next(k, K.Resume).threads;
    }

    /** `Thread::Fork`. */
    method Fork(t: nat)
      requires Valid() && L.Going(State(), currentThread) && t !in threads && t !in deleted
      modifies `threads, `readyList, `saved
      ensures Valid() && State() == L.Next(old(State()), L.Do(K.Fork(t)))
      ensures readyList == old(readyList) + [t] && threads == old(threads)[t := K.Thread(K.Ready, K.Computing)]
      ensures saved == old(saved)[t := true]
    {
      L.NextKeepsInv(State(), L.Do(K.Fork(t)));
      threads := threads[t := K.Thread(K.Ready, K.Computing)];
      saved := saved[t := true];
      readyList := readyList + [t];
    }

    /** `Thread::Yield`, up to the switch; without another thread to run it does nothing. */
    method Yield() returns (switched: bool)
      requires Valid() && L.Going(State(), currentThread)
      modifies this
      ensures Valid() && switched == (old(readyList) != [])
      ensures State() == if switched then L.Next(old(State()), L.Do(K.Yield)) else old(State())
      ensures switched ==> GaveWay(old(Kernel()), old(interruptsOn))
    {
      if readyList != [] {
        L.NextKeepsInv(State(), L.Do(K.Yield));
        K.NextIsReady(Kernel());
      }
      switched := GiveWay();
    }

    /** The first ready thread has taken the place of the one that ran, which is ready now, last in the list,
        with its level saved; interrupts are off. */
    ghost predicate GaveWay(was: K.Kernel, level: bool)
      reads this
    {
      && was.readyList != [] && currentThread == was.readyList[0] && readyList == was.readyList[1..] + [was.current]
      && was.current in was.threads && currentThread in was.threads && was.current != currentThread
      && threads == was.threads[was.current := was.threads[was.current].(status := K.Ready)]
                    [currentThread := was.threads[currentThread].(status := K.Running)]
      && !interruptsOn && resuming && was.current in saved && saved[was.current] == level
      && Kernel().toBeDestroyed == was.toBeDestroyed && semaphores == was.semaphores
    }

    method GiveWay() returns (switched: bool)
      requires L.Going(State(), currentThread)
      requires readyList != [] ==> readyList[0] in threads && currentThread !in readyList
      modifies this
      ensures switched == (old(readyList) != [])
      ensures State() == if switched then L.Next(old(State()), L.Do(K.Yield)) else old(State())
      ensures switched ==> GaveWay(old(Kernel()), old(interruptsOn))
    {
      var oldLevel := interruptsOn;
      interruptsOn := false;
      var next := FindNextToRun();
      if next == None {
        interruptsOn := oldLevel;
        return false;
      }
      saved := saved[currentThread := oldLevel];
      ReadyToRun(currentThread);
      Run(next.value, false);
      return true;
    }

    /** `Thread::Finish`, up to the loop of `Sleep`. */
    method Finish()
      requires Valid() && L.Going(State(), currentThread)
      modifies `interruptsOn, `threads
      ensures Valid() && State() == L.Next(old(State()), L.Do(K.Finish))
      ensures !interruptsOn && threads == old(threads)[currentThread := K.Thread(K.Blocked, K.Finishing)]
    {
      L.NextKeepsInv(State(), L.Do(K.Finish));
      interruptsOn := false;
      threads := threads[currentThread := K.Thread(K.Blocked, K.Finishing)];
    }

    /** One turn of the loop in `Thread::Sleep`: a switch if a thread is ready, else the machine is to
        idle. Interrupts are off, as the ASSERT there says. */
    method SleepLoop() returns (switched: bool)
      requires Valid() && !resuming && !K.Here(Kernel(), K.Running)
      modifies this
      ensures !old(interruptsOn) && !interruptsOn
      ensures Valid() && switched == (old(readyList) != [])
      ensures State() == if switched then L.Next(old(State()), L.Do(K.Dispatch)) else old(State())
      ensures switched ==> Dispatched(old(Kernel()))
    {
      assert !interruptsOn;
      if readyList != [] {
        L.NextKeepsInv(State(), L.Do(K.Dispatch));
        K.NextIsReady(Kernel());
        K.AssertsHold(Kernel(), K.Dispatch);
      }
      switched := RunNext();
    }

    /** The first ready thread runs; the one before it is to be destroyed exactly if it is finishing. */
    ghost predicate Dispatched(was: K.Kernel)
      reads this
    {
      && was.readyList != [] && currentThread == was.readyList[0] && readyList == was.readyList[1..]
      && was.current in was.threads && currentThread in was.threads && resuming
      && threads == was.threads[currentThread := was.threads[currentThread].(status := K.Running)]
      && toBeDestroyed == (if was.threads[was.current].phase.Finishing? then Some(was.current) else None)
      && semaphores == was.semaphores
    }

    method RunNext() returns (switched: bool)
      requires !resuming && !interruptsOn && currentThread in threads && !K.Here(Kernel(), K.Running)
      requires toBeDestroyed == None && (readyList != [] ==> readyList[0] in threads)
      modifies `readyList, `toBeDestroyed, `currentThread, `threads, `resuming
      ensures switched == (old(readyList) != [])
      ensures State() == if switched then L.Next(old(State()), L.Do(K.Dispatch)) else old(State())
      ensures switched ==> Dispatched(old(Kernel()))
    {
      var next := FindNextToRun();
      if next == None {
        return false;
      }
      Run(next.value, threads[currentThread].phase.Finishing?);
      return true;
    }

    /** One turn of the loop in `Semaphore::P`: takes the value and ends, at the level of the caller, or
        goes to sleep. */
    method P(s: nat) returns (passed: bool)
      requires Valid() && s in semaphores
      requires L.Going(State(), currentThread)
               || (!resuming && currentThread in threads && threads[currentThread] == K.Thread(K.Running, K.InP(s)))
      modifies `interruptsOn, `semaphores, `threads, `saved
      ensures Valid() && State() == L.Next(old(State()), L.Do(K.P(s)))
      ensures passed <==> old(semaphores)[s].value > 0
      ensures interruptsOn == (passed && L.LevelOf(old(State()), currentThread))
      ensures Tested(old(semaphores), old(threads), s, passed)
    {
      L.Tests(State(), s);
      passed := Test(s);
    }

    /** The current thread has taken one from the value, or it sleeps, last in the queue. */
    ghost predicate Tested(sems: map<nat, K.Semaphore>, ths: map<nat, K.Thread>, s: nat, passed: bool)
      reads this
    {
      && s in sems && s in semaphores && currentThread in threads
      && semaphores == sems[s := semaphores[s]] && threads == ths[currentThread := threads[currentThread]]
      && semaphores[s].initial == sems[s].initial && semaphores[s].vs == sems[s].vs
      && if passed then
           && semaphores[s].value == sems[s].value - 1 && semaphores[s].ps == sems[s].ps + 1
           && semaphores[s].queue == sems[s].queue && threads[currentThread] == K.Thread(K.Running, K.Computing)
         else
           && semaphores[s].value == sems[s].value == 0 && semaphores[s].ps == sems[s].ps
           && semaphores[s].queue == sems[s].queue + [currentThread]
           && threads[currentThread] == K.Thread(K.Blocked, K.InP(s))
    }

    method Test(s: nat) returns (passed: bool)
      requires s in semaphores && !resuming && currentThread !in semaphores[s].queue
      requires L.Going(State(), currentThread)
               || (currentThread in threads && threads[currentThread] == K.Thread(K.Running, K.InP(s))
                   && currentThread in saved && !interruptsOn)
      modifies `interruptsOn, `semaphores, `threads, `saved
      ensures State() == L.Next(old(State()), L.Do(K.P(s)))
      ensures passed <==> old(semaphores)[s].value > 0
      ensures interruptsOn == (passed && L.LevelOf(old(State()), currentThread))
      ensures Tested(old(semaphores), old(threads), s, passed)
    {
      // the first statement of `P`; a thread that is back in the loop has been there
      if threads[currentThread].phase.Computing? {
        saved := saved[currentThread := interruptsOn];
        interruptsOn := false;
      }
      var sem := semaphores[s];
      if sem.value == 0 {
        semaphores := semaphores[s := sem.(queue := sem.queue + [currentThread])];
        threads := threads[currentThread := K.Thread(K.Blocked, K.InP(s))];
        return false;
      }
      semaphores := semaphores[s := sem.(value := sem.value - 1, ps := sem.ps + 1)];
      threads := threads[currentThread := K.Thread(K.Running, K.Computing)];
      interruptsOn := saved[currentThread];
      return true;
    }

    /** `Semaphore::V`. */
    method V(s: nat)
      requires Valid() && !resuming && s in semaphores
      modifies `interruptsOn, `semaphores, `threads, `readyList
      ensures Valid() && State() == L.Next(old(State()), L.Do(K.V(s))) && interruptsOn == old(interruptsOn)
      ensures Woke(old(Kernel()), s)
    {
      L.Wakes(State(), s);
      Wake(s);
    }

    /** The value is one more, and the first sleeper, if there is one, is ready and no longer in the queue. */
    ghost predicate Woke(was: K.Kernel, s: nat)
      reads this
    {
      && s in was.semaphores && s in semaphores && semaphores == was.semaphores[s := semaphores[s]]
      && semaphores[s].value == was.semaphores[s].value + 1 && semaphores[s].vs == was.semaphores[s].vs + 1
      && semaphores[s].ps == was.semaphores[s].ps && semaphores[s].initial == was.semaphores[s].initial
      && if was.semaphores[s].queue == [] then
           semaphores[s].queue == [] && threads == was.threads && readyList == was.readyList
         else
           && was.semaphores[s].queue == [was.semaphores[s].queue[0]] + semaphores[s].queue
           && was.semaphores[s].queue[0] in was.threads && readyList == was.readyList + [was.semaphores[s].queue[0]]
           && threads == was.threads[was.semaphores[s].queue[0] :=
                                       was.threads[was.semaphores[s].queue[0]].(status := K.Ready)]
    }

    method Wake(s: nat)
      requires s in semaphores && !resuming
      requires semaphores[s].queue != [] ==> semaphores[s].queue[0] in threads && semaphores[s].queue[0] !in readyList
      modifies `interruptsOn, `semaphores, `threads, `readyList
      ensures State() == L.Next(old(State()), L.Do(K.V(s))) && interruptsOn == old(interruptsOn)
      ensures Woke(old(Kernel()), s)
    {
      var oldLevel := interruptsOn;
      interruptsOn := false;
      var sem := semaphores[s];
      if sem.queue != [] {
        semaphores := semaphores[s := sem.(queue := sem.queue[1..])];
        ReadyToRun(sem.queue[0]);
      }
      semaphores := semaphores[s := semaphores[s].(value := sem.value + 1, vs := sem.vs + 1)];
      interruptsOn := oldLevel;
    }
  }
}
