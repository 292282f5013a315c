/** machine/disk.cc: how long the simulated disk takes - seek, rotation, transfer and the track buffer -
    and the protocol of one request at a time. Times are in ticks. */
module DiskTiming {
  const SECTORS_PER_TRACK := 32
  const NUM_SECTORS := 1024
  const ROTATION_TIME := 500
  const SEEK_TIME := 500

  function Track(sector: nat): nat {
    sector / SECTORS_PER_TRACK
  }

  /** Moving the head from one track to another. */
  function SeekFor(from: nat, to: nat): nat {
    (if Track(to) >= Track(from) then Track(to) - Track(from) else Track(from) - Track(to)) * SEEK_TIME
  }

  /** A seek takes 500 ticks for each track in between, whichever way it goes; there are 32 sectors on one. */
  lemma SeekIs(from: nat, to: nat, a: nat, b: nat)
    requires 32 * a <= from < 32 * a + 32 && 32 * b <= to < 32 * b + 32
    ensures SeekFor(from, to) == 500 * (if a <= b then b - a else a - b)
    ensures SeekFor(from, to) == SeekFor(to, from)
  {
  }

  /** From time `t` to the next sector boundary. */
  function ToBoundary(t: nat): (r: nat)
    ensures r < ROTATION_TIME && (t + r) % ROTATION_TIME == 0
  {
    var over := t % ROTATION_TIME;
    if over > 0 then ROTATION_TIME - over else 0
  }

  /** The sector offset that starts to pass under the head at time `t`, a boundary. */
  function HeadAt(t: nat): nat {
    t / ROTATION_TIME % SECTORS_PER_TRACK
  }

  /** How many sectors pass before `to` does, if `from` is the one under the head. */
  function ModuloDiff(to: nat, from: nat): (d: nat)
    ensures d < SECTORS_PER_TRACK && (from + d) % SECTORS_PER_TRACK == to % SECTORS_PER_TRACK
  {
    var d := (to % SECTORS_PER_TRACK - from % SECTORS_PER_TRACK + SECTORS_PER_TRACK) % SECTORS_PER_TRACK;
    DiffIs(to, from, d);
    d
  }

  lemma DiffIs(to: nat, from: nat, d: int)
    requires d == (to % SECTORS_PER_TRACK - from % SECTORS_PER_TRACK + SECTORS_PER_TRACK) % SECTORS_PER_TRACK
    ensures 0 <= d < SECTORS_PER_TRACK && (from + d) % SECTORS_PER_TRACK == to % SECTORS_PER_TRACK
  {
    var a, b, q := from % 32, to % 32, from / 32;
    assert from + d == 32 * q + b || from + d == 32 * (q + 1) + b;
  }

  /** Sector `s` has passed under the head completely at time `t`: it starts to pass at `t - ROTATION_TIME`. */
  predicate JustPassed(s: nat, t: nat) {
    t >= ROTATION_TIME && t % ROTATION_TIME == 0 && HeadAt(t - ROTATION_TIME) == s % SECTORS_PER_TRACK
  }

  class Disk {
    /** The sector requested last, which is where the head is. */
    var lastSector: nat
    /** When the track buffer started to load. */
    var bufferInit: nat
    var active: bool
    /** When the request under way ends. */
    ghost var due: nat

    /** What holds at time `now`: loading started on a boundary, and before any later request. */
    ghost predicate Valid(now: nat)
      reads this
    {
      && lastSector < NUM_SECTORS && bufferInit % ROTATION_TIME == 0
      && bufferInit <= if active then due else now
    }

    constructor (now: nat)
      ensures Valid(now) && !active
    {
      lastSector, bufferInit, active, due := 0, 0, false, 0;
    }

    /** The seek for a request at time `now`, and the wait for the next boundary after it. */
    function TimeToSeek(now: nat, newSector: nat): (r: (nat, nat))
      reads this
      ensures r.1 < ROTATION_TIME && (now + r.0 + r.1) % ROTATION_TIME == 0
    {
      var seek := SeekFor(lastSector, newSector);
      (seek, ToBoundary(now + seek))
    }

    /** Is the sector in the track buffer? */
    predicate Buffered(now: nat, newSector: nat)
      requires Valid(now) && !active
      reads this
    {
      var (seek, rotation) := TimeToSeek(now, newSector);
      && seek == 0
      && (now + seek + rotation - bufferInit) / ROTATION_TIME > ModuloDiff(newSector, bufferInit / ROTATION_TIME)
    }

    function ComputeLatency(now: nat, newSector: nat, writing: bool): (ticks: nat)
      requires Valid(now) && !active
      reads this
    {
      var (seek, rotation) := TimeToSeek(now, newSector);
      var timeAfter := now + seek + rotation;
      if !writing && seek == 0
         && (timeAfter - bufferInit) / ROTATION_TIME > ModuloDiff(newSector, bufferInit / ROTATION_TIME)
      then ROTATION_TIME
      else seek + (rotation + ModuloDiff(newSector, timeAfter / ROTATION_TIME) * ROTATION_TIME) + ROTATION_TIME
    }

    /** From a boundary on, a sector has just passed after its distance and itself. */
    static lemma PassesAfter(s: nat, t: nat)
      requires t % ROTATION_TIME == 0
      ensures JustPassed(s, t + (ModuloDiff(s, t / ROTATION_TIME) + 1) * ROTATION_TIME)
    {
      var d := ModuloDiff(s, t / ROTATION_TIME);
      assert (t + (d + 1) * ROTATION_TIME - ROTATION_TIME) / ROTATION_TIME == t / ROTATION_TIME + d;
    }

    /** A request takes at least a sector's transfer, and at most a seek across the disk, a rotation and two
        sectors more. */
    lemma LatencyBounds(now: nat, newSector: nat, writing: bool)
      requires Valid(now) && !active && newSector < NUM_SECTORS
      ensures 500 <= ComputeLatency(now, newSector, writing) < 32000
    {
    }

    /** A write, or a read that the track buffer cannot answer, ends when the head has just passed the
        sector, at the first such time that leaves room for the seek. */
    lemma Unbuffered(now: nat, newSector: nat, writing: bool, e: nat)
      requires Valid(now) && !active && (writing || !Buffered(now, newSector))
      ensures var end := now + ComputeLatency(now, newSector, writing);
              && JustPassed(newSector, end) && end >= now + SeekFor(lastSector, newSector) + ROTATION_TIME
              && (now + SeekFor(lastSector, newSector) + ROTATION_TIME <= e < end ==> !JustPassed(newSector, e))
    {
      var (seek, rotation) := TimeToSeek(now, newSector);
      PassesAfter(newSector, now + seek + rotation);
      if JustPassed(newSector, e) && now + seek + ROTATION_TIME <= e {
        FromBoundary(now + seek, rotation, e);
        NotBefore(newSector, now + seek + rotation, e);
      }
    }

    /** The first boundary after `t` that leaves room for a sector is no earlier than a sector after the first. */
    static lemma FromBoundary(t: nat, rotation: nat, e: nat)
      requires (t + rotation) % 500 == 0 && rotation < 500 && e % 500 == 0 && t + 500 <= e
      ensures t + rotation + 500 <= e
    {
    }

    /** From a boundary on, no sector passes sooner than after its distance. */
    static lemma NotBefore(s: nat, t: nat, e: nat)
      requires t % ROTATION_TIME == 0 && JustPassed(s, e) && t + ROTATION_TIME <= e
      ensures e >= t + (ModuloDiff(s, t / ROTATION_TIME) + 1) * ROTATION_TIME
    {
      var d, j := ModuloDiff(s, t / ROTATION_TIME), e / ROTATION_TIME - 1 - t / ROTATION_TIME;
      assert e == t + (j + 1) * ROTATION_TIME && (t / ROTATION_TIME + j) % SECTORS_PER_TRACK == s % SECTORS_PER_TRACK;
      if j < d {
        SameRemainder(t / ROTATION_TIME, j, d);
      }
    }

    static lemma SameRemainder(x: nat, j: nat, d: nat)
      requires j < d < SECTORS_PER_TRACK
      ensures (x + j) % SECTORS_PER_TRACK != (x + d) % SECTORS_PER_TRACK
    {
    }

    /** A read from the track buffer takes no longer than it would without, and does not end before the
        head has passed the sector after loading began. */
    lemma FromBuffer(now: nat, newSector: nat)
      requires Valid(now) && !active && Buffered(now, newSector)
      ensures ComputeLatency(now, newSector, false) == ROTATION_TIME <= ComputeLatency(now, newSector, true)
      ensures var passed := bufferInit + (ModuloDiff(newSector, bufferInit / ROTATION_TIME) + 1) * ROTATION_TIME;
              JustPassed(newSector, passed) && passed < now + ComputeLatency(now, newSector, false)
    {
      PassesAfter(newSector, bufferInit);
    }

    /** Where the head is after a request, and since when the track buffer has been loading. */
    method UpdateLast(now: nat, newSector: nat)
      requires Valid(now) && newSector < NUM_SECTORS
      modifies `lastSector, `bufferInit
      ensures lastSector == newSector && bufferInit % ROTATION_TIME == 0
      // only a seek starts the buffer afresh
      ensures Track(old(lastSector)) == Track(newSector) ==> bufferInit == old(bufferInit)
      // then it loads from the first boundary on, at which the head can read
      ensures Track(old(lastSector)) != Track(newSector) ==>
        var there := now + SeekFor(old(lastSector), newSector);
        there <= bufferInit < there + ROTATION_TIME
    {
      var (seek, rotate) := TimeToSeek(now, newSector);
      if seek != 0 {
        bufferInit := now + seek + rotate;
      }
      lastSector := newSector;
    }

    /** A read or a write request: the end is scheduled `ticks` from now. */
    method Request(now: nat, sectorNumber: nat, writing: bool) returns (ticks: nat)
      requires Valid(now) && !active && sectorNumber < NUM_SECTORS
      modifies this
      ensures ticks == old(ComputeLatency(now, sectorNumber, writing)) > 0
      ensures Valid(now) && active && due == now + ticks && lastSector == sectorNumber
    {
      ticks := ComputeLatency(now, sectorNumber, writing);
      LatencyBounds(now, sectorNumber, writing);
      active := true;
      due := now + ticks;
      UpdateLast(now, sectorNumber);
    }

    /** The interrupt at the end of a request; it may come late. */
    method CallBack(now: nat)
      requires Valid(now) && active && due <= now
      modifies `active
      ensures Valid(now) && !active
    {
      active := false;
    }
  }
}
