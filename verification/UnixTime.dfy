// The pausable clock of a stream. The wall clock, gettimeofday() in seconds, is an argument.
module Clocks {

  datatype Clock = Clock(origin: real, instant: real, paused: bool)

  // What getCurrentTime answers when the wall clock shows wall.
  function Reading(c: Clock, wall: real): real {
    if c.paused then c.instant else wall - c.origin
  }

  datatype Event = Pause(at: real) | Resume(at: real)

  function Apply(c: Clock, e: Event): Clock {
    match e
    case Pause(at) => if c.paused then c else Clock(c.origin, Reading(c, at), true)
    case Resume(at) => if !c.paused then c else Clock(c.origin + (at - c.origin - c.instant), c.instant, false)
  }

  class UnixTime {
    var origin: real
    var pauseInstant: real
    var paused: bool

    constructor (wall: real)
      ensures origin == wall && !paused
    {
      origin := wall;
      paused := false;
    }

    ghost function View(): Clock
      reads this
    {
      Clock(origin, pauseInstant, paused)
    }

    method GetCurrentTime(wall: real) returns (t: real)
      ensures t == Reading(View(), wall)
    {
      if paused {
        return pauseInstant;
      }
      return wall - origin;
    }

    method PauseClock(wall: real) returns (done: bool)
      modifies this
      ensures View() == Apply(old(View()), Pause(wall)) && done == !old(paused)
    {
      if paused {
        return false;
      }
      pauseInstant := GetCurrentTime(wall);
      paused := true;
      return true;
    }

    method ResumeClock(wall: real) returns (done: bool)
      modifies this
      ensures View() == Apply(old(View()), Resume(wall)) && done == old(paused)
    {
      if !paused {
        return false;
      }
      paused := false;
      var t := GetCurrentTime(wall);
      origin := origin + (t - pauseInstant);
      return true;
    }

    // How many microseconds waitAt sleeps.
    method WaitAt(timestamp: real, wall: real) returns (micros: nat)
      ensures micros == SleepMicros(timestamp, Reading(View(), wall))
    {
      micros := 0;
      var x := GetCurrentTime(wall);
      if timestamp > x {
        micros := (1000000.0 * (timestamp - x)).Floor;
      }
    }
  }

  function SleepMicros(timestamp: real, reading: real): (micros: nat)
    ensures micros as real > 1000000.0 * (timestamp - reading) - 1.0
    ensures timestamp > reading ==> micros as real <= 1000000.0 * (timestamp - reading)
    ensures timestamp <= reading ==> micros == 0
  {
    if timestamp > reading then (1000000.0 * (timestamp - reading)).Floor else 0
  }

  // ---------- What the clock tells ----------

  function Run(c: Clock, events: seq<Event>): Clock
    decreases |events|
  {
    if events == [] then c else Apply(Run(c, events[..|events| - 1]), events[|events| - 1])
  }

  // The wall time from start to wall during which the clock was not paused: nothing counts
  // after a pause, everything counts after a resume.
  function Unpaused(start: real, events: seq<Event>, wall: real): real
    decreases |events|
  {
    if events == [] then wall - start
    else
      var e := events[|events| - 1];
      Unpaused(start, events[..|events| - 1], e.at) + if e.Pause? then 0.0 else wall - e.at
  }

  // The events happen in order, from the start and until now.
  predicate InOrder(start: real, events: seq<Event>, wall: real)
    decreases |events|
  {
    if events == [] then start <= wall
    else
      var e := events[|events| - 1];
      e.at <= wall && InOrder(start, events[..|events| - 1], e.at)
  }

  predicate EndsPaused(events: seq<Event>) {
    events != [] && events[|events| - 1].Pause?
  }

  // Any sequence of pauses and resumes, repeats included: the clock reads the unpaused time.
  lemma {:induction false} ClockTellsUnpausedTime(start: real, instant: real, events: seq<Event>, wall: real)
    ensures var c := Run(Clock(start, instant, false), events);
            c.paused == EndsPaused(events) && Reading(c, wall) == Unpaused(start, events, wall)
    decreases |events|
  {
    if events != [] {
      var e := events[|events| - 1];
      var before := events[..|events| - 1];
      ClockTellsUnpausedTime(start, instant, before, e.at);
      ClockTellsUnpausedTime(start, instant, before, wall);
      if before != [] {
        UnpausedWhile(start, before, e.at, wall);
      }
    }
  }

  // Between events the reference grows with the wall, or not at all.
  lemma UnpausedWhile(start: real, events: seq<Event>, w1: real, w2: real)
    ensures Unpaused(start, events, w2) - Unpaused(start, events, w1)
            == if EndsPaused(events) then 0.0 else w2 - w1
  {
  }

  // The clock never runs ahead of the wall clock ...
  lemma {:induction false} UnpausedBounds(start: real, events: seq<Event>, wall: real)
    requires InOrder(start, events, wall)
    ensures 0.0 <= Unpaused(start, events, wall) <= wall - start
    decreases |events|
  {
    if events != [] {
      UnpausedBounds(start, events[..|events| - 1], events[|events| - 1].at);
    }
  }

  // ... and never runs backwards: a later reading, after any further events, is no smaller.
  lemma {:induction false} ClockNeverDecreases(start: real, instant: real, events: seq<Event>, w1: real,
                                               more: seq<Event>, w2: real)
    requires InOrder(w1, more, w2)
    ensures Reading(Run(Clock(start, instant, false), events), w1)
            <= Reading(Run(Clock(start, instant, false), events + more), w2)
    decreases |more|
  {
    ClockTellsUnpausedTime(start, instant, events, w1);
    ClockTellsUnpausedTime(start, instant, events + more, w2);
    UnpausedGrows(start, events, w1, more, w2);
  }

  lemma {:induction false} UnpausedGrows(start: real, events: seq<Event>, w1: real, more: seq<Event>, w2: real)
    requires InOrder(w1, more, w2)
    ensures Unpaused(start, events, w1) <= Unpaused(start, events + more, w2)
    decreases |more|
  {
    if more == [] {
      assert events + more == events;
      UnpausedWhile(start, events, w1, w2);
    } else {
      var e := more[|more| - 1];
      var shorter := more[..|more| - 1];
      assert (events + more)[..|events + more| - 1] == events + shorter;
      UnpausedGrows(start, events, w1, shorter, e.at);
    }
  }

  // Where the pause that is still on began: repeated pauses change nothing.
  function PauseStart(events: seq<Event>): real
    requires EndsPaused(events)
    decreases |events|
  {
    var before := events[..|events| - 1];
    if EndsPaused(before) then PauseStart(before) else events[|events| - 1].at
  }

  // A read between the two steps of a resume, when the flag is down but the origin not yet
  // shifted, is ahead by exactly the length of the pause that just ended.
  lemma {:induction false} HalfResumedOvershoots(start: real, instant: real, events: seq<Event>, wall: real)
    requires EndsPaused(events)
    ensures var c := Run(Clock(start, instant, false), events);
            Reading(c.(paused := false), wall)
            == Unpaused(start, events, wall) + (wall - PauseStart(events))
    decreases |events|
  {
    var e := events[|events| - 1];
    var before := events[..|events| - 1];
    ClockTellsUnpausedTime(start, instant, before, e.at);
    if EndsPaused(before) {
      HalfResumedOvershoots(start, instant, before, wall);
      UnpausedWhile(start, before, e.at, wall);
    }
  }
}
