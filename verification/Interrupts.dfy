/** machine/interrupt.cc: simulated time and the hardware interrupts pending in it. */
module Interrupts {
  import opened LinkedLists

  const USER_TICK := 1
  const SYSTEM_TICK := 10

  datatype MachineStatus = IdleMode | SystemMode | UserMode

  /** An interrupt to come; `serial` counts the calls of `Schedule`, and is not in the source. */
  datatype Pending = Pending(device: nat, when: int, serial: nat)

  /** What a handler asks for while it runs: that `device` be called `fromNow` ticks later. */
  datatype Request = Request(device: nat, fromNow: int)

  predicate InFuture(requests: seq<Request>) {
    forall i :: 0 <= i < |requests| ==> requests[i].fromNow > 0
  }

  /** The interrupt that comes of request `j` of a handler that runs at time `now`. */
  function Asked(requests: seq<Request>, j: nat, now: int, serial: nat): Pending
    requires j < |requests|
  {
    Pending(requests[j].device, now + requests[j].fromNow, serial + j)
  }

  /** The first `n` of the requests have been added to what was pending, and nothing else. */
  ghost predicate Added(before: seq<Pending>, after: seq<Pending>, requests: seq<Request>, n: nat, now: int,
                        serial: nat)
    requires n <= |requests|
  {
    && (forall p :: p in before ==> p in after)
    && (forall j :: 0 <= j < n ==> Asked(requests, j, now, serial) in after)
    && (forall p :: p in after ==> p in before || exists j :: 0 <= j < n && p == Asked(requests, j, now, serial))
  }

  lemma AddedOne(before: seq<Pending>, mid: seq<Pending>, after: seq<Pending>, requests: seq<Request>, n: nat,
                 now: int, serial: nat)
    requires n < |requests| && Added(before, mid, requests, n, now, serial)
    requires forall p :: p in after <==> p in mid || p == Asked(requests, n, now, serial)
    ensures Added(before, after, requests, n + 1, now, serial)
  {
    forall p | p in after && p !in before ensures exists j :: 0 <= j < n + 1 && p == Asked(requests, j, now, serial) {
      if p in mid {
        var j :| 0 <= j < n && p == Asked(requests, j, now, serial);
      } else {
        assert p == Asked(requests, n, now, serial);
      }
    }
  }

  function PendingCompare(x: Pending, y: Pending): int {
    if x.when < y.when then -1 else if x.when > y.when then 1 else 0
  }

  /** `x` is to happen before `y`: earlier, or at the same time and scheduled first. */
  predicate Before(x: Pending, y: Pending) {
    x.when < y.when || (x.when == y.when && x.serial < y.serial)
  }

  ghost predicate InOrder(s: seq<Pending>) {
    forall i, j :: 0 <= i < j < |s| ==> Before(s[i], s[j])
  }

  ghost predicate AllBefore(s: seq<Pending>, t: seq<Pending>) {
    forall x, y :: x in s && y in t ==> Before(x, y)
  }

  lemma PlaceInOrder(s: seq<Pending>, x: Pending, k: nat)
    requires InOrder(s) && k <= |s|
    requires forall i :: 0 <= i < |s| ==> if i < k then Before(s[i], x) else Before(x, s[i])
    ensures InOrder(s[..k] + [x] + s[k..])
  {
  }

  lemma PlaceMembers(s: seq<Pending>, x: Pending, k: nat)
    requires k <= |s|
    ensures forall p :: p in s[..k] + [x] + s[k..] <==> p in s || p == x
  {
    assert s == s[..k] + s[k..];
  }

  lemma PendingOrdering()
    ensures Ordering(PendingCompare)
  {
  }

  /** The sorted list puts a new interrupt behind those of the same time, so it stays in order. */
  lemma InsertInOrder(s: seq<Pending>, x: Pending)
    requires InOrder(s) && forall i :: 0 <= i < |s| ==> s[i].serial < x.serial
    ensures InOrder(SortedInsert(s, x, PendingCompare))
    ensures forall p :: p in SortedInsert(s, x, PendingCompare) <==> p in s || p == x
  {
    PendingOrdering();
    assert Sorted(s, PendingCompare) by {
      forall i, j | 0 <= i < j < |s| ensures PendingCompare(s[i], s[j]) <= 0 {
        assert Before(s[i], s[j]);
      }
    }
    var k := PlaceOf(s, x, PendingCompare);
    PlaceInOrder(s, x, k);
    PlaceMembers(s, x, k);
  }

  /** The interrupts that are due at time `now`: those at the front of a list in order. */
  function Due(s: seq<Pending>, now: int): seq<Pending> {
    if s == [] || s[0].when > now then [] else [s[0]] + Due(s[1..], now)
  }

  /** An interrupt in the future does not change what is due. */
  lemma {:induction false} DueInsert(s: seq<Pending>, x: Pending, now: int)
    requires x.when > now
    ensures Due(SortedInsert(s, x, PendingCompare), now) == Due(s, now)
  {
    var t := SortedInsert(s, x, PendingCompare);
    if s != [] && PendingCompare(x, s[0]) >= 0 {
      DueInsert(s[1..], x, now);
      assert t[1..] == SortedInsert(s[1..], x, PendingCompare);
    }
  }

  /** They are the front of the list, and all that is due is among them. */
  lemma {:induction false} DueIsFront(s: seq<Pending>, now: int)
    requires InOrder(s)
    ensures Due(s, now) <= s && forall i :: 0 <= i < |s| ==> (s[i].when <= now <==> i < |Due(s, now)|)
  {
    if s != [] && s[0].when <= now {
      DueIsFront(s[1..], now);
    }
  }

  /** Has one of the handlers asked for a switch, from the `k`th that fired on? */
  ghost predicate AskedSince(asked: seq<bool>, k: nat) {
    exists i :: k <= i < |asked| && asked[i]
  }

  lemma AskedMore(before: seq<bool>, after: seq<bool>, k: nat)
    requires k <= |before| && |after| == |before| + 1 && after[..|before|] == before
    ensures AskedSince(after, k) <==> AskedSince(before, k) || after[|before|]
  {
    if AskedSince(before, k) {
      var i :| k <= i < |before| && before[i];
      assert after[i] == after[..|before|][i];
    }
    if AskedSince(after, k) && !after[|before|] {
      var i :| k <= i < |after| && after[i];
      assert before[i] == after[..|before|][i];
    }
  }

  class Interrupt {
    var levelOn: bool
    var inHandler: bool
    var yieldOnReturn: bool
    var status: MachineStatus
    /** The sorted list of the source. */
    var pending: seq<Pending>
    var totalTicks: int
    var idleTicks: int
    var systemTicks: int
    var userTicks: int
    /** How many interrupts have been scheduled; not in the source. */
    var scheduled: nat
    /** Which of them have fired, in order, and when. */
    ghost var fired: seq<Pending>
    ghost var firedAt: seq<int>
    /** Which of their handlers have asked for a context switch. */
    ghost var asked: seq<bool>

    ghost predicate Valid()
      reads this
    {
      // time is accounted for
      && totalTicks == idleTicks + systemTicks + userTicks
      // what has fired is in order, what is pending is in order, and comes after it
      && InOrder(fired) && InOrder(pending) && AllBefore(fired, pending)
      && (forall p :: p in pending ==> p.serial < scheduled)
      // nothing fired early, or is yet to fire early
      && |asked| == |firedAt| == |fired|
      && (forall i :: 0 <= i < |fired| ==> fired[i].when <= firedAt[i] <= totalTicks)
    }

    /** Nothing that is pending is overdue. */
    ghost predicate NothingDue()
      reads this
    {
      forall p :: p in pending ==> p.when > totalTicks
    }

    constructor ()
      ensures Valid() && !levelOn && !inHandler && pending == [] && totalTicks == 0
    {
      levelOn, inHandler, yieldOnReturn, status, pending := false, false, false, SystemMode, [];
      totalTicks, idleTicks, systemTicks, userTicks := 0, 0, 0, 0;
      scheduled, fired, firedAt, asked := 0, [], [], [];
    }

    /** Arranges for an interrupt, strictly in the future. */
    method Schedule(device: nat, fromNow: int)
      requires Valid() && fromNow > 0
      modifies `pending, `scheduled
      ensures Valid() && scheduled == old(scheduled) + 1
      ensures pending == SortedInsert(old(pending), Pending(device, totalTicks + fromNow, old(scheduled)),
        PendingCompare)
      ensures Due(pending, totalTicks) == Due(old(pending), totalTicks)
      ensures forall p :: p in pending <==>
        p in old(pending) || p == Pending(device, totalTicks + fromNow, old(scheduled))
    {
      ghost var x := Pending(device, totalTicks + fromNow, scheduled);
      InsertInOrder(pending, x);
      DueInsert(pending, x, totalTicks);
      pending := SortedInsert(pending, Pending(device, totalTicks + fromNow, scheduled), PendingCompare);
      scheduled := scheduled + 1;
    }

    /** A handler asks for a context switch, once all handlers are done. */
    method YieldOnReturn()
      requires inHandler
      modifies `yieldOnReturn
      ensures yieldOnReturn
    {
      yieldOnReturn := true;
    }

    /** The handler of an interrupt. What it does is up to the device: it may schedule interrupts, always in
        the future, and ask for a context switch. */
    method CallBack(next: Pending) returns (asks: bool, ghost requests: seq<Request>)
      requires Valid() && inHandler
      modifies `pending, `scheduled, `yieldOnReturn
      ensures Valid() && Due(pending, totalTicks) == Due(old(pending), totalTicks)
      ensures yieldOnReturn <==> old(yieldOnReturn) || asks
      ensures InFuture(requests) && Added(old(pending), pending, requests, |requests|, totalTicks, old(scheduled))
    {
      var all: seq<Request> :| InFuture(all) by { assert InFuture([]); }
      requests := all;
      ScheduleAll(all);
      asks := *;
      if asks {
        YieldOnReturn();
      }
    }

    method ScheduleAll(requests: seq<Request>)
      requires Valid() && InFuture(requests)
      modifies `pending, `scheduled
      ensures Valid() && Due(pending, totalTicks) == Due(old(pending), totalTicks)
      ensures Added(old(pending), pending, requests, |requests|, totalTicks, old(scheduled))
    {
      for i := 0 to |requests|
        invariant Valid() && Due(pending, totalTicks) == Due(old(pending), totalTicks)
        invariant scheduled == old(scheduled) + i
        invariant Added(old(pending), pending, requests, i, totalTicks, old(scheduled))
      {
        ghost var mid := pending;
        Schedule(requests[i].device, requests[i].fromNow);
        AddedOne(old(pending), mid, pending, requests, i, totalTicks, old(scheduled));
      }
    }

    /** Takes the first interrupt off the list, and fires it. */
    method FireFirst()
      requires Valid() && inHandler && pending != [] && pending[0].when <= totalTicks
      modifies `pending, `scheduled, `yieldOnReturn, `fired, `firedAt, `asked
      ensures Valid() && fired == old(fired) + [old(pending)[0]]
      ensures Due(old(pending), totalTicks) == [old(pending)[0]] + Due(pending, totalTicks)
      ensures |asked| == |old(asked)| + 1 && asked[..|old(asked)|] == old(asked)
      ensures yieldOnReturn <==> old(yieldOnReturn) || asked[|old(asked)|]
      ensures forall p :: p in old(pending)[1..] ==> p in pending
    {
      ghost var before := asked;
      var next := RemoveFront();
      var asks, _ := CallBack(next);
      asked := before + [asks];
    }

    /** Takes the first interrupt off the list and notes that it fires now; whether its handler asks is not
        known yet. */
    method RemoveFront() returns (next: Pending)
      requires Valid() && pending != [] && pending[0].when <= totalTicks
      modifies `pending, `fired, `firedAt, `asked
      ensures Valid() && old(pending) == [next] + pending
      ensures fired == old(fired) + [next] && firedAt == old(firedAt) + [totalTicks]
      ensures Due(old(pending), totalTicks) == [next] + Due(pending, totalTicks)
    {
      next := pending[0];
      pending := pending[1..];
      fired, firedAt, asked := fired + [next], firedAt + [totalTicks], asked + [false];
    }

    /** Fires every interrupt that is due, including those that come due as the clock is advanced to the
        first of them. */
    method CheckIfDue(advanceClock: bool) returns (any: bool)
      requires Valid() && !levelOn && !inHandler
      modifies this
      ensures Valid() && NothingDue() && !levelOn && !inHandler && status == old(status)
      ensures any <==> old(pending) != [] && (advanceClock || old(pending)[0].when <= old(totalTicks))
      ensures !any ==> pending == old(pending)
      ensures totalTicks == if any && old(pending)[0].when > old(totalTicks)
        then old(pending)[0].when else old(totalTicks)
      ensures idleTicks - old(idleTicks) == totalTicks - old(totalTicks)
      ensures systemTicks == old(systemTicks) && userTicks == old(userTicks)
      // what is due fires, all of it, in order; nothing else fires, and nothing else is lost
      ensures fired == old(fired) + Due(old(pending), totalTicks)
      ensures forall p :: p in old(pending) && p.when > totalTicks ==> p in pending
      ensures any <==> |fired| > |old(fired)|
      ensures yieldOnReturn <==> old(yieldOnReturn) || AskedSince(asked, |old(fired)|)
    {
      if pending == [] {
        return false;
      }
      var next := pending[0];
      if next.when > totalTicks {
        if !advanceClock {
          return false;
        } else {
          idleTicks := idleTicks + (next.when - totalTicks);
          totalTicks := next.when;
        }
      }
      FireAll();
      return true;
    }

    /** The loop of `CheckIfDue`: it ends, since handlers only add interrupts that are not due. */
    method FireAll()
      requires Valid() && !levelOn && !inHandler && pending != [] && pending[0].when <= totalTicks
      modifies `pending, `scheduled, `yieldOnReturn, `inHandler, `fired, `firedAt, `asked
      ensures Valid() && NothingDue() && !inHandler
      ensures fired == old(fired) + Due(old(pending), totalTicks)
      ensures forall p :: p in old(pending) && p.when > totalTicks ==> p in pending
      ensures yieldOnReturn <==> old(yieldOnReturn) || AskedSince(asked, |old(fired)|)
    {
      inHandler := true;
      var again := true;
      while again
        invariant Valid() && inHandler
        invariant again <==> pending != [] && pending[0].when <= totalTicks
        invariant fired + Due(pending, totalTicks) == old(fired) + Due(old(pending), totalTicks)
        invariant forall p :: p in old(pending) && p.when > totalTicks ==> p in pending
        invariant |fired| >= |old(fired)|
        invariant yieldOnReturn <==> old(yieldOnReturn) || AskedSince(asked, |old(fired)|)
        decreases |Due(pending, totalTicks)|
      {
        ghost var before := asked;
        FireFirst();
        AskedMore(before, asked, |old(fired)|);
        again := pending != [] && pending[0].when <= totalTicks;
      }
      DueIsFront(pending, totalTicks);
      inHandler := false;
    }

    /** One tick of user or system time, and whatever comes due with it. Returns whether the thread is to
        yield, as the caller then makes it do: exactly if a handler has asked for it. */
    method OneTick() returns (switches: bool)
      requires Valid() && levelOn && !inHandler
      modifies this
      ensures Valid() && NothingDue() && levelOn && !inHandler && !yieldOnReturn && status == old(status)
      ensures switches <==> old(yieldOnReturn) || AskedSince(asked, |old(fired)|)
      ensures totalTicks == old(totalTicks) + (if old(status).SystemMode? then 10 else 1)
      ensures systemTicks == old(systemTicks) + (if old(status).SystemMode? then 10 else 0)
      ensures userTicks == old(userTicks) + (if old(status).SystemMode? then 0 else 1)
      ensures idleTicks == old(idleTicks) && fired == old(fired) + Due(old(pending), totalTicks)
      ensures forall p :: p in old(pending) && p.when > totalTicks ==> p in pending
    {
      if status == SystemMode {
        totalTicks := totalTicks + SYSTEM_TICK;
        systemTicks := systemTicks + SYSTEM_TICK;
      } else {
        totalTicks := totalTicks + USER_TICK;
        userTicks := userTicks + USER_TICK;
      }
      levelOn := false;
      var any := CheckIfDue(false);
      levelOn := true;
      switches := yieldOnReturn;
      yieldOnReturn := false;
    }

    /** Sets the interrupt level; enabling interrupts takes a tick. */
    method SetLevel(on: bool) returns (wasOn: bool, switches: bool)
      requires Valid() && (!on || !inHandler)
      modifies this
      ensures Valid() && levelOn == on && wasOn == old(levelOn) && inHandler == old(inHandler) && status == old(status)
      ensures on && !wasOn ==>
        && NothingDue() && fired == old(fired) + Due(old(pending), totalTicks)
        && totalTicks == old(totalTicks) + (if status.SystemMode? then 10 else 1)
        && (switches <==> old(yieldOnReturn) || AskedSince(asked, |old(fired)|))
      ensures !on || wasOn ==>
        !switches && totalTicks == old(totalTicks) && pending == old(pending) && fired == old(fired)
    {
      wasOn, switches := levelOn, false;
      levelOn := on;
      if on && !wasOn {
        switches := OneTick();
      }
    }

    /** Nothing to run: advances the clock to the next interrupt and fires it, or halts. */
    method Idle() returns (halts: bool)
      requires Valid() && !levelOn && !inHandler
      modifies this
      ensures Valid() && !levelOn && !inHandler && NothingDue()
      ensures halts <==> old(pending) == []
      ensures halts ==> pending == [] && totalTicks == old(totalTicks)
      ensures !halts ==> status == SystemMode && |fired| > |old(fired)|
      ensures !halts ==> totalTicks == if old(pending)[0].when > old(totalTicks) then old(pending)[0].when
                                       else old(totalTicks)
      ensures fired == old(fired) + Due(old(pending), totalTicks)
      ensures idleTicks - old(idleTicks) == totalTicks - old(totalTicks)
    {
      status := IdleMode;
      var any := CheckIfDue(true);
      if any {
        status := SystemMode;
        return false;
      }
      return true;
    }
  }
}
