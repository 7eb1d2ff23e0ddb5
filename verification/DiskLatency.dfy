/**
 * machine/disk.cc: when a request completes, from the seek, the rotation of the platter
 * and the track buffer. Time is in ticks.
 */
module Latencies {
  const SECTORS_PER_TRACK := 32
  const ROTATION_TIME := 500
  const SEEK_TIME := 500

  function Track(sector: nat): (t: nat)
  {
    sector / SECTORS_PER_TRACK
  }

  /** The place on the track that is under the head at a time; it changes at the sector boundaries. */
  function UnderHead(time: nat): (place: nat)
  {
    time / ROTATION_TIME % SECTORS_PER_TRACK
  }

  predicate Boundary(time: nat)
  {
    time % ROTATION_TIME == 0
  }

  /** The head stands at the beginning of the sector. */
  predicate StartsAt(sector: nat, time: nat)
  {
    Boundary(time) && UnderHead(time) == sector % SECTORS_PER_TRACK
  }

  // ----- the functions of the source -----

  function SeekTime(last: nat, sector: nat): (seek: nat)
    ensures seek == 0 <==> Track(sector) == Track(last)
    ensures 500 * Track(last) + seek == 500 * Track(sector) || 500 * Track(sector) + seek == 500 * Track(last)
  {
    (if Track(sector) > Track(last) then Track(sector) - Track(last) else Track(last) - Track(sector)) * SEEK_TIME
  }

  /** TimeToSeek's second result: the time from the end of the seek to the next sector boundary. */
  function RoundUp(arrival: nat): (rotation: nat)
  {
    var over := arrival % ROTATION_TIME;
    if over > 0 then ROTATION_TIME - over else 0
  }

  function ModuloDiff(to: nat, from: nat): (d: nat)
  {
    (to % SECTORS_PER_TRACK - from % SECTORS_PER_TRACK + SECTORS_PER_TRACK) % SECTORS_PER_TRACK
  }

  function TimeAfter(now: nat, last: nat, sector: nat): (t: nat)
  {
    var seek := SeekTime(last, sector);
    now + seek + RoundUp(now + seek)
  }

  /** C++ division; only its comparison with a non-negative number matters. */
  predicate BufferHit(now: nat, last: nat, bufferInit: nat, sector: nat, writing: bool)
  {
    && !writing
    && SeekTime(last, sector) == 0
    && var passed := TimeAfter(now, last, sector) - bufferInit;
       (if passed >= 0 then passed / ROTATION_TIME else -((-passed) / ROTATION_TIME))
         > ModuloDiff(sector, bufferInit / ROTATION_TIME)
  }

  function Latency(now: nat, last: nat, bufferInit: nat, sector: nat, writing: bool): (ticks: nat)
  {
    if BufferHit(now, last, bufferInit, sector, writing) then ROTATION_TIME
    else
      var seek := SeekTime(last, sector);
      var rotation := RoundUp(now + seek)
                      + ModuloDiff(sector, TimeAfter(now, last, sector) / ROTATION_TIME) * ROTATION_TIME;
      seek + rotation + ROTATION_TIME
  }

  // ----- what they mean -----

  /** The next sector boundary. */
  lemma RoundUpIsNext(arrival: nat, t: nat)
    ensures Boundary(arrival + RoundUp(arrival)) && RoundUp(arrival) < ROTATION_TIME
    ensures arrival <= t && Boundary(t) ==> arrival + RoundUp(arrival) <= t
  {
  }

  lemma PlaceAfter(from: nat, k: nat)
    requires k < SECTORS_PER_TRACK
    ensures (from + k) % SECTORS_PER_TRACK
         == if from % SECTORS_PER_TRACK + k < 32 then from % SECTORS_PER_TRACK + k else from % SECTORS_PER_TRACK + k - 32
  {
  }

  /** The number of sectors that go by before the target comes. */
  lemma ModuloDiffIsFirst(to: nat, from: nat, k: nat)
    ensures ModuloDiff(to, from) < SECTORS_PER_TRACK
    ensures (from + ModuloDiff(to, from)) % SECTORS_PER_TRACK == to % SECTORS_PER_TRACK
    ensures k < ModuloDiff(to, from) ==> (from + k) % SECTORS_PER_TRACK != to % SECTORS_PER_TRACK
  {
    var f, d := from % SECTORS_PER_TRACK, ModuloDiff(to, from);
    assert d == if to % SECTORS_PER_TRACK >= f then to % SECTORS_PER_TRACK - f else to % SECTORS_PER_TRACK - f + 32;
    PlaceAfter(from, d);
    if k < d {
      PlaceAfter(from, k);
    }
  }

  /** From a boundary on, the target is first at its beginning after ModuloDiff sectors. */
  lemma FirstStart(sector: nat, t0: nat, t: nat)
    requires Boundary(t0)
    ensures StartsAt(sector, t0 + ModuloDiff(sector, t0 / ROTATION_TIME) * ROTATION_TIME)
    ensures t0 <= t && StartsAt(sector, t) ==> t0 + ModuloDiff(sector, t0 / ROTATION_TIME) * ROTATION_TIME <= t
  {
    var d := ModuloDiff(sector, t0 / ROTATION_TIME);
    ModuloDiffIsFirst(sector, t0 / ROTATION_TIME, d);
    assert (t0 + d * ROTATION_TIME) / ROTATION_TIME == t0 / ROTATION_TIME + d;
    if t0 <= t && StartsAt(sector, t) {
      var k := t / ROTATION_TIME - t0 / ROTATION_TIME;
      ModuloDiffIsFirst(sector, t0 / ROTATION_TIME, k);
    }
  }

  /** Without a buffer hit the transfer starts at the first time after the seek at which the target begins. */
  lemma EarliestStart(now: nat, last: nat, bufferInit: nat, sector: nat, writing: bool, t: nat)
    requires !BufferHit(now, last, bufferInit, sector, writing)
    ensures var arrival := now + SeekTime(last, sector);
            var start := now + Latency(now, last, bufferInit, sector, writing) - ROTATION_TIME;
            && arrival <= start && StartsAt(sector, start)
            && (arrival <= t && StartsAt(sector, t) ==> start <= t)
  {
    var arrival := now + SeekTime(last, sector);
    RoundUpIsNext(arrival, t);
    FirstStart(sector, TimeAfter(now, last, sector), t);
  }

  /** The sector went by under the head completely in the given time. */
  ghost predicate WentBy(sector: nat, since: nat, until: nat)
  {
    exists s: nat :: since <= s && s + ROTATION_TIME <= until && StartsAt(sector, s)
  }

  lemma WentByIff(sector: nat, since: nat, until: nat)
    requires Boundary(since)
    ensures WentBy(sector, since, until)
       <==> since + ModuloDiff(sector, since / ROTATION_TIME) * ROTATION_TIME + ROTATION_TIME <= until
  {
    var first := since + ModuloDiff(sector, since / ROTATION_TIME) * ROTATION_TIME;
    FirstStart(sector, since, 0);
    if WentBy(sector, since, until) {
      var s: nat :| since <= s && s + ROTATION_TIME <= until && StartsAt(sector, s);
      FirstStart(sector, since, s);
    }
  }

  /**
   * A read is served from the track buffer exactly when it is on the current track and the whole sector
   * has gone by between the loading of the track and the next sector boundary.
   */
  lemma HitIff(now: nat, last: nat, bufferInit: nat, sector: nat, writing: bool)
    requires Boundary(bufferInit)
    ensures BufferHit(now, last, bufferInit, sector, writing)
       <==> !writing && Track(sector) == Track(last) && WentBy(sector, bufferInit, now + RoundUp(now))
  {
    WentByIff(sector, bufferInit, now + RoundUp(now));
    RoundUpIsNext(now, now);
  }

  lemma BoundaryBelow(end: nat, now: nat)
    requires Boundary(end) && end <= now + RoundUp(now)
    ensures end <= now <==> Boundary(now) || end != now + RoundUp(now)
  {
    RoundUpIsNext(now, end);
  }

  /** When it has: a hit means so exactly when the sector does not end between now and the next boundary. */
  lemma HitInTimeIff(now: nat, last: nat, bufferInit: nat, sector: nat)
    requires Boundary(bufferInit) && BufferHit(now, last, bufferInit, sector, false)
    ensures WentBy(sector, bufferInit, now)
       <==> Boundary(now) || bufferInit + (ModuloDiff(sector, bufferInit / ROTATION_TIME) + 1) * ROTATION_TIME
                             != now + RoundUp(now)
  {
    hide ModuloDiff, RoundUp, BufferHit, WentBy, SeekTime;
    var end := bufferInit + (ModuloDiff(sector, bufferInit / ROTATION_TIME) + 1) * ROTATION_TIME;
    HitIff(now, last, bufferInit, sector, false);
    WentByIff(sector, bufferInit, now);
    WentByIff(sector, bufferInit, now + RoundUp(now));
    BoundaryBelow(end, now);
  }

  /** In every case the whole target has been under the head when the request completes. */
  lemma TransferComplete(now: nat, last: nat, bufferInit: nat, sector: nat, writing: bool)
    requires Boundary(bufferInit)
    ensures var done := now + Latency(now, last, bufferInit, sector, writing);
            if BufferHit(now, last, bufferInit, sector, writing) then WentBy(sector, bufferInit, done)
            else WentBy(sector, now + SeekTime(last, sector), done)
  {
    if BufferHit(now, last, bufferInit, sector, writing) {
      HitIff(now, last, bufferInit, sector, writing);
      RoundUpIsNext(now, now);
    } else {
      EarliestStart(now, last, bufferInit, sector, writing, now);
    }
  }

  lemma LatencyBounds(now: nat, last: nat, bufferInit: nat, sector: nat, writing: bool)
    ensures ROTATION_TIME <= Latency(now, last, bufferInit, sector, writing)
         < SeekTime(last, sector) + 33 * ROTATION_TIME
  {
    ModuloDiffIsFirst(sector, TimeAfter(now, last, sector) / ROTATION_TIME, 0);
  }

  // ----- UpdateLast, and runs of requests -----

  datatype Head = Head(lastSector: nat, bufferInit: nat)

  function UpdateLast(h: Head, now: nat, sector: nat): (h': Head)
  {
    Head(sector, if SeekTime(h.lastSector, sector) != 0 then TimeAfter(now, h.lastSector, sector) else h.bufferInit)
  }

  datatype Request = Request(now: nat, sector: nat, writing: bool)

  ghost function Done(h: Head, r: Request): (t: nat)
  {
    r.now + Latency(r.now, h.lastSector, h.bufferInit, r.sector, r.writing)
  }

  /** The states of the head before each request; no request is made before the one before has completed. */
  ghost predicate IsRun(hs: seq<Head>, rs: seq<Request>)
  {
    && |hs| == |rs| + 1
    && hs[0] == Head(0, 0)
    && (forall i | 0 <= i < |rs| :: hs[i + 1] == UpdateLast(hs[i], rs[i].now, rs[i].sector))
    && (forall i | 0 < i < |rs| :: Done(hs[i - 1], rs[i - 1]) <= rs[i].now)
  }

  lemma {:induction false} TimesGrow(hs: seq<Head>, rs: seq<Request>, j: nat, i: nat)
    requires IsRun(hs, rs) && j < i < |rs|
    ensures rs[j].now < rs[i].now
  {
    var h, r := hs[i - 1], rs[i - 1];
    LatencyBounds(r.now, h.lastSector, h.bufferInit, r.sector, r.writing);
    assert Done(h, r) <= rs[i].now;
    if j < i - 1 {
      TimesGrow(hs, rs, j, i - 1);
    }
  }

  /**
   * At every request the buffer started loading at a sector boundary, not after now, and since then the
   * head has stayed on the track of the last sector.
   */
  lemma {:induction false} BufferIsLoaded(hs: seq<Head>, rs: seq<Request>, i: nat)
    requires IsRun(hs, rs) && i < |rs|
    ensures Boundary(hs[i].bufferInit) && hs[i].bufferInit <= rs[i].now
    ensures forall j | 0 <= j < i && rs[j].now >= hs[i].bufferInit :: Track(rs[j].sector) == Track(hs[i].lastSector)
  {
    if i > 0 {
      var h, r := hs[i - 1], rs[i - 1];
      BufferIsLoaded(hs, rs, i - 1);
      TimesGrow(hs, rs, i - 1, i);
      assert hs[i] == UpdateLast(h, r.now, r.sector);
      if SeekTime(h.lastSector, r.sector) != 0 {
        assert Done(h, r) <= rs[i].now;
        RoundUpIsNext(r.now + SeekTime(h.lastSector, r.sector), 0);
        forall j | 0 <= j < i
          ensures rs[j].now < hs[i].bufferInit
        {
          if j < i - 1 {
            TimesGrow(hs, rs, j, i - 1);
          }
        }
      }
    }
  }

  /** The first request of a machine can be a hit before its sector has gone by. */
  lemma HitTooEarly()
    ensures IsRun([Head(0, 0), Head(0, 0)], [Request(10, 0, false)])
    ensures BufferHit(10, 0, 0, 0, false) && !WentBy(0, 0, 10)
  {
  }
}

/** The disk object's timing state. */
module Disks {
  import opened Latencies

  /** The first sector boundary that is not before a time. */
  ghost predicate NextBoundary(time: nat, b: nat)
  {
    time <= b && Boundary(b) && forall t: nat | time <= t && Boundary(t) :: b <= t
  }

  /** The first time, not before another one, at which the head stands at the beginning of the sector. */
  ghost predicate NextStart(sector: nat, time: nat, s: nat)
  {
    time <= s && StartsAt(sector, s) && forall t: nat | time <= t && StartsAt(sector, t) :: s <= t
  }

  class Disk {
    var lastSector: nat
    var bufferInit: nat

    /** The track buffer starts at a sector boundary. */
    ghost predicate Valid()
      reads this
    {
      Boundary(bufferInit)
    }

    function State(): (h: Head)
      reads this
    {
      Head(lastSector, bufferInit)
    }

    constructor ()
      ensures Valid() && State() == Head(0, 0)
    {
      lastSector := 0;
      bufferInit := 0;
    }

    /** One SeekTime a track, and then the wait for the next sector boundary. */
    method TimeToSeek(now: nat, newSector: nat) returns (seek: nat, rotation: nat)
      ensures seek == SeekTime(lastSector, newSector)
      ensures NextBoundary(now + seek, now + seek + rotation) && rotation < ROTATION_TIME
    {
      var newTrack, oldTrack := newSector / SECTORS_PER_TRACK, lastSector / SECTORS_PER_TRACK;
      var tracks := newTrack - oldTrack;
      seek := (if tracks < 0 then -tracks else tracks) * SEEK_TIME;
      var over := (now + seek) % ROTATION_TIME;
      rotation := 0;
      if over > 0 {
        rotation := ROTATION_TIME - over;
      }
      assert rotation == RoundUp(now + seek);
      RoundedUp(now + seek);
    }

    /**
     * A read of the current track whose sector has gone by before the next boundary takes one sector time.
     * Everything else ends one sector time after the first time, after the seek, at which the target begins.
     */
    method ComputeLatency(now: nat, newSector: nat, writing: bool) returns (ticks: nat)
      requires Valid()
      ensures ticks == Latency(now, lastSector, bufferInit, newSector, writing)
      ensures ROTATION_TIME <= ticks < SeekTime(lastSector, newSector) + 33 * ROTATION_TIME
      ensures if !writing && Track(newSector) == Track(lastSector) && WentBy(newSector, bufferInit, now + RoundUp(now))
              then ticks == ROTATION_TIME
              else NextStart(newSector, now + SeekTime(lastSector, newSector), now + ticks - ROTATION_TIME)
    {
      ticks := FindLatency(now, newSector, writing);
      LatencyBounds(now, lastSector, bufferInit, newSector, writing);
      LatencyMeaning(State(), now, newSector, writing);
    }

    /** The computation of ComputeLatency. */
    method FindLatency(now: nat, newSector: nat, writing: bool) returns (ticks: nat)
      ensures ticks == Latency(now, lastSector, bufferInit, newSector, writing)
    {
      var seek, rotation := TimeToSeek(now, newSector);
      RoundedUp(now + seek);
      var timeAfter := now + seek + rotation;
      var passed := timeAfter - bufferInit;
      var whole := if passed >= 0 then passed / ROTATION_TIME else -((-passed) / ROTATION_TIME);
      if !writing && seek == 0 && whole > ModuloDiff(newSector, bufferInit / ROTATION_TIME) {
        return ROTATION_TIME;
      }
      rotation := rotation + ModuloDiff(newSector, timeAfter / ROTATION_TIME) * ROTATION_TIME;
      return seek + rotation + ROTATION_TIME;
    }

    /** A seek starts the buffer anew, at the first boundary on the new track; otherwise it goes on. */
    method UpdateLast(now: nat, newSector: nat)
      requires Valid()
      modifies this
      ensures Valid() && lastSector == newSector
      ensures if Track(newSector) == Track(old(lastSector)) then bufferInit == old(bufferInit)
              else NextBoundary(now + SeekTime(old(lastSector), newSector), bufferInit)
      ensures State() == Latencies.UpdateLast(old(State()), now, newSector)
    {
      var seek, rotation := TimeToSeek(now, newSector);
      RoundedUp(now + seek);
      if seek != 0 {
        bufferInit := now + seek + rotation;
      }
      lastSector := newSector;
    }
  }

  /** There is only one next boundary. */
  lemma RoundedUp(time: nat)
    ensures forall b: nat :: NextBoundary(time, b) <==> b == time + RoundUp(time)
  {
    forall t: nat
      ensures time <= t && Boundary(t) ==> time + RoundUp(time) <= t
    {
      RoundUpIsNext(time, t);
    }
    RoundUpIsNext(time, time);
  }

  lemma LatencyMeaning(h: Head, now: nat, sector: nat, writing: bool)
    requires Boundary(h.bufferInit)
    ensures var ticks := Latency(now, h.lastSector, h.bufferInit, sector, writing);
            ticks >= ROTATION_TIME &&
            if !writing && Track(sector) == Track(h.lastSector) && WentBy(sector, h.bufferInit, now + RoundUp(now))
            then ticks == ROTATION_TIME
            else NextStart(sector, now + SeekTime(h.lastSector, sector), now + ticks - ROTATION_TIME)
  {
    hide WentBy, ModuloDiff, RoundUp, UnderHead, SeekTime;
    HitIff(now, h.lastSector, h.bufferInit, sector, writing);
    LatencyBounds(now, h.lastSector, h.bufferInit, sector, writing);
    if !BufferHit(now, h.lastSector, h.bufferInit, sector, writing) {
      var arrival := now + SeekTime(h.lastSector, sector);
      var start := now + Latency(now, h.lastSector, h.bufferInit, sector, writing) - ROTATION_TIME;
      forall t: nat
        ensures arrival <= start && StartsAt(sector, start) && (arrival <= t && StartsAt(sector, t) ==> start <= t)
      {
        EarliestStart(now, h.lastSector, h.bufferInit, sector, writing, t);
      }
    }
  }
}
