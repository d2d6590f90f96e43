// The sending thread and the thread that pauses and resumes its stream, interleaved statement
// by statement. The wall clock may advance by any amount at every step.
module Pacing {
  import opened Clocks
  import Streams

  // When the clock was set up, and the stamp of each packet (from 0).
  datatype Config = Config(start: real, due: nat -> real)

  // pauseClock and resumeClock in the controlling thread. Only it writes to the clock.
  datatype Control =
    | Idle
    | PauseSampled(tp: real)     // gettimeofday() done, pauseinstant_ not yet written
    | PauseStored                // pauseinstant_ written, the flag not yet up
    | ResumeCleared              // the flag down, gettimeofday() not yet called
    | ResumeSampled(tp: real)    // the origin not yet shifted

  // The sending loop: waitAt, with getCurrentTime inside it, and the send.
  datatype Sender =
    | Fetch                          // about to ask the generator
    | TestPaused(tx: real)
    | ReadInstant(tx: real)          // the flag was up
    | SampleWall(tx: real)           // the flag was down
    | ReadOrigin(tx: real, tp: real) // gettimeofday() done
    | Decide(tx: real, x: real)
    | Asleep(tx: real, wake: real)
    | Ready(tx: real)

  datatype Sent = Sent(at: real, tx: real)

  // stored: pauseinstant_ has been written at least once (it starts uninitialised).
  datatype State = State(wall: real, clock: Clock, stored: bool, control: Control, sender: Sender, sent: seq<Sent>)

  ghost predicate Init(c: Config, s: State) {
    && s.wall == s.clock.origin == c.start
    && !s.clock.paused && !s.stored
    && s.control == Idle && s.sender == Fetch && s.sent == []
  }

  // One statement of the controlling thread; a call that finds the flag as it wants it returns.
  ghost predicate ControlStep(s: State, s': State) {
    && s' == s.(wall := s'.wall, clock := s'.clock, stored := s'.stored, control := s'.control)
    && match s.control
       case Idle =>
         if !s.clock.paused then
           s'.clock == s.clock && s'.stored == s.stored && s'.control == PauseSampled(s.wall)
         else
           s'.clock == s.clock.(paused := false) && s'.stored == s.stored && s'.control == ResumeCleared
       case PauseSampled(tp) =>
         s'.clock == s.clock.(instant := tp - s.clock.origin) && s'.stored && s'.control == PauseStored
       case PauseStored =>
         s'.clock == s.clock.(paused := true) && s'.stored == s.stored && s'.control == Idle
       case ResumeCleared =>
         s'.clock == s.clock && s'.stored == s.stored && s'.control == ResumeSampled(s.wall)
       case ResumeSampled(tp) =>
         && s'.clock == s.clock.(origin := s.clock.origin + (tp - s.clock.origin - s.clock.instant))
         && s'.stored == s.stored && s'.control == Idle
  }

  // One statement of the sending thread. usleep() may return late, never early.
  ghost predicate SenderStep(c: Config, s: State, s': State) {
    && s' == s.(wall := s'.wall, sender := s'.sender, sent := s'.sent)
    && (!s.sender.Ready? ==> s'.sent == s.sent)
    && match s.sender
       case Fetch =>
         var tx := c.due(|s.sent|);
         s'.sender == if tx > 0.0 then TestPaused(tx) else Ready(tx)
       case TestPaused(tx) => s'.sender == if s.clock.paused then ReadInstant(tx) else SampleWall(tx)
       case ReadInstant(tx) => s'.sender == Decide(tx, s.clock.instant)
       case SampleWall(tx) => s'.sender == ReadOrigin(tx, s.wall)
       case ReadOrigin(tx, tp) => s'.sender == Decide(tx, tp - s.clock.origin)
       case Decide(tx, x) =>
         s'.sender == if tx > x then Asleep(tx, s.wall + Seconds(SleepMicros(tx, x))) else Ready(tx)
       case Asleep(tx, wake) => s.wall >= wake && s'.sender == Ready(tx)
       case Ready(tx) => s'.sent == s.sent + [Sent(s.wall, tx)] && s'.sender == Fetch
  }

  function Seconds(micros: nat): (seconds: real)
    ensures 1000000.0 * seconds == micros as real
  {
    micros as real / 1000000.0
  }

  ghost predicate Next(c: Config, s: State, s': State) {
    && s.wall <= s'.wall
    && (ControlStep(s, s') || SenderStep(c, s, s') || s' == s.(wall := s'.wall))
  }

  ghost predicate IsRun(c: Config, run: seq<State>) {
    && run != [] && Init(c, run[0])
    && forall i :: 0 <= i < |run| - 1 ==> Next(c, run[i], run[i + 1])
  }

  const MICROSECOND := 0.000001

  // Whatever the clock held at the last pause, it is behind the wall clock.
  ghost predicate ControlInv(c: Config, s: State) {
    && c.start <= s.clock.origin
    && (s.stored ==> s.clock.instant <= s.wall - c.start)
    && (s.clock.paused || s.control.PauseStored? || s.control.ResumeCleared? || s.control.ResumeSampled? ==>
          s.stored && s.clock.instant + s.clock.origin <= s.wall)
    && (s.control.PauseSampled? ==> s.control.tp <= s.wall)
    && (s.control.ResumeSampled? ==> s.clock.instant + s.clock.origin <= s.control.tp <= s.wall)
  }

  ghost predicate SenderInv(c: Config, s: State) {
    && c.start <= s.wall
    && (!s.sender.Fetch? ==> s.sender.tx == c.due(|s.sent|))
    && match s.sender
       case ReadInstant(_) => s.stored
       case ReadOrigin(_, tp) => tp <= s.wall
       case Decide(_, x) => x <= s.wall - c.start
       case Asleep(tx, wake) => wake >= c.start + tx - MICROSECOND
       case Ready(tx) => s.wall >= c.start + tx - MICROSECOND
       case _ => true
  }

  ghost predicate SentInv(c: Config, s: State) {
    && (forall k :: 0 <= k < |s.sent| ==>
                      && s.sent[k].tx == c.due(k)
                      && c.start + c.due(k) - MICROSECOND <= s.sent[k].at <= s.wall)
    && (forall j, k :: 0 <= j < k < |s.sent| ==> s.sent[j].at <= s.sent[k].at)
  }

  ghost predicate Inv(c: Config, s: State) {
    ControlInv(c, s) && SenderInv(c, s) && SentInv(c, s)
  }

  lemma ControlKeeps(c: Config, s: State, s': State)
    requires Inv(c, s) && s.wall <= s'.wall && ControlStep(s, s')
    ensures Inv(c, s')
  {
  }

  lemma SenderKeeps(c: Config, s: State, s': State)
    requires Inv(c, s) && s.wall <= s'.wall && SenderStep(c, s, s')
    ensures Inv(c, s')
  {
    if s.sender.Decide? {
      SleepIsLongEnough(s.sender.tx, s.sender.x);
    }
  }

  lemma SleepIsLongEnough(tx: real, x: real)
    ensures Seconds(SleepMicros(tx, x)) >= tx - x - MICROSECOND
  {
    var micros := SleepMicros(tx, x) as real;
    assert micros >= 1000000.0 * (tx - x) - 1.0;
  }

  lemma {:induction false} RunKeepsInv(c: Config, run: seq<State>, i: nat)
    requires IsRun(c, run) && i < |run|
    ensures Inv(c, run[i])
  {
    if i > 0 {
      RunKeepsInv(c, run, i - 1);
      var s, s' := run[i - 1], run[i - 1 + 1];
      assert Next(c, s, s');
      if ControlStep(s, s') {
        ControlKeeps(c, s, s');
      } else if SenderStep(c, s, s') {
        SenderKeeps(c, s, s');
      }
    }
  }

  // In every run, however pauses, resumes and torn clock reads interleave, no packet leaves
  // earlier than its stamp (less the microsecond lost to truncation) after the clock's start.
  lemma NeverEarly(c: Config, run: seq<State>, i: nat, k: nat)
    requires IsRun(c, run) && i < |run| && k < |run[i].sent|
    ensures run[i].sent[k].tx == c.due(k)
    ensures run[i].sent[k].at >= c.start + c.due(k) - 0.000001
  {
    RunKeepsInv(c, run, i);
  }

  // A constant-rate schedule at a positive rate: by wall time t at most rate * (t + 1 us) bits
  // have left, counting t from the clock's start.
  lemma CbrRateBound(c: Config, size: int, rate: real, interval: real, run: seq<State>, i: nat, n: nat, t: real)
    requires rate > 0.0 && interval * rate == 8.0 * size as real
    requires forall k: nat :: c.due(k) == (k + 1) as real * interval
    requires IsRun(c, run) && i < |run| && 0 < n <= |run[i].sent| && run[i].sent[n - 1].at <= c.start + t
    ensures n as real * (8.0 * size as real) <= rate * (t + 0.000001)
  {
    NeverEarly(c, run, i, n - 1);
    var stamp := c.due(n - 1);
    assert stamp == n as real * interval;
    assert stamp <= t + MICROSECOND;
    Scale(stamp, t + MICROSECOND, rate);
    Associate(n as real, interval, rate);
  }

  lemma Scale(a: real, b: real, r: real)
    requires a <= b && r > 0.0
    ensures a * r <= r * b
  {
  }

  lemma Associate(a: real, b: real, c: real)
    ensures (a * b) * c == a * (b * c)
  {
  }

  // ---------- The clock and the loop of the sequential methods ----------

  // The controlling thread is in this state when the clock has gone through these events; an
  // event counts from the step that writes what it changes.
  ghost predicate WentThrough(c: Config, first: Clock, s: State, events: seq<Event>) {
    var clock := Run(first, events);
    match s.control
    case Idle => s.clock == clock && InOrder(c.start, events, s.wall)
    case PauseSampled(tp) =>
      s.clock == clock && !clock.paused && !EndsPaused(events) && InOrder(c.start, events, tp) && tp <= s.wall
    case PauseStored =>
      && EndsPaused(events) && !EndsPaused(events[..|events| - 1])
      && s.clock == clock.(paused := false) && clock.paused && InOrder(c.start, events, s.wall)
    case ResumeCleared => s.clock == clock.(paused := false) && clock.paused && InOrder(c.start, events, s.wall)
    case ResumeSampled(tp) =>
      s.clock == clock.(paused := false) && clock.paused && InOrder(c.start, events, tp) && tp <= s.wall
  }

  lemma RunSnoc(first: Clock, events: seq<Event>, e: Event, start: real, wall: real)
    ensures Run(first, events + [e]) == Apply(Run(first, events), e)
    ensures InOrder(start, events, e.at) && e.at <= wall ==> InOrder(start, events + [e], wall)
    ensures EndsPaused(events + [e]) == e.Pause? && (events + [e])[..|events + [e]| - 1] == events
  {
    assert (events + [e])[..|events|] == events;
  }

  lemma InOrderLater(start: real, events: seq<Event>, w1: real, w2: real)
    requires InOrder(start, events, w1) && w1 <= w2
    ensures InOrder(start, events, w2)
  {
  }

  lemma EventsOfStep(c: Config, first: Clock, s: State, s': State, events: seq<Event>) returns (events': seq<Event>)
    requires WentThrough(c, first, s, events) && s.wall <= s'.wall && ControlStep(s, s')
    ensures WentThrough(c, first, s', events')
  {
    events' := events;
    InOrderLater(c.start, events, if s.control.PauseSampled? || s.control.ResumeSampled? then s.control.tp else s.wall,
                 s'.wall);
    if s.control.PauseSampled? {
      RunSnoc(first, events, Pause(s.control.tp), c.start, s'.wall);
      events' := events + [Pause(s.control.tp)];
    } else if s.control.ResumeSampled? {
      RunSnoc(first, events, Resume(s.control.tp), c.start, s'.wall);
      events' := events + [Resume(s.control.tp)];
    }
  }

  lemma {:induction false} EventsOfRun(c: Config, run: seq<State>, i: nat) returns (events: seq<Event>)
    requires IsRun(c, run) && i < |run|
    ensures WentThrough(c, run[0].clock, run[i], events)
  {
    events := [];
    if i > 0 {
      events := EventsOfRun(c, run, i - 1);
      var s, s' := run[i - 1], run[i - 1 + 1];
      assert Next(c, s, s');
      if ControlStep(s, s') {
        events := EventsOfStep(c, run[0].clock, s, s', events);
      } else if s.control.Idle? || s.control.PauseStored? || s.control.ResumeCleared? {
        InOrderLater(c.start, events, s.wall, s'.wall);
      }
    }
  }

  // In every state of every run the clock reads the unpaused time of the pauses and resumes so
  // far. While a pause is being stored it still reads what it read before, and while a resume is
  // under way it is ahead by the length of the pause that is ending.
  lemma ReadingInRun(c: Config, run: seq<State>, i: nat, wall: real) returns (events: seq<Event>)
    requires IsRun(c, run) && i < |run|
    ensures InOrder(c.start, events, run[i].wall)
    ensures match run[i].control
            case Idle => Reading(run[i].clock, wall) == Unpaused(c.start, events, wall)
            case PauseSampled(_) => Reading(run[i].clock, wall) == Unpaused(c.start, events, wall)
            case PauseStored =>
              EndsPaused(events) && Reading(run[i].clock, wall) == Unpaused(c.start, events[..|events| - 1], wall)
            case _ =>
              EndsPaused(events)
              && Reading(run[i].clock, wall) == Unpaused(c.start, events, wall) + (wall - PauseStart(events))
  {
    var instant := run[0].clock.instant;
    events := EventsOfRun(c, run, i);
    var s := run[i];
    if s.control.PauseSampled? || s.control.ResumeSampled? {
      InOrderLater(c.start, events, s.control.tp, s.wall);
    }
    ClockTellsUnpausedTime(c.start, instant, events, wall);
    if s.control.PauseStored? {
      StoredPause(c, instant, s, events, wall);
    } else if s.control.ResumeCleared? || s.control.ResumeSampled? {
      HalfResumedOvershoots(c.start, instant, events, wall);
    }
  }

  // The origin is as it was before the pause that is being stored.
  lemma StoredPause(c: Config, instant: real, s: State, events: seq<Event>, wall: real)
    requires EndsPaused(events) && s.clock == Run(Clock(c.start, instant, false), events).(paused := false)
    requires !EndsPaused(events[..|events| - 1])
    ensures Reading(s.clock, wall) == Unpaused(c.start, events[..|events| - 1], wall)
  {
    ClockTellsUnpausedTime(c.start, instant, events[..|events| - 1], wall);
  }

  // A pause and a resume, each a row of steps of the controlling thread with anything but its own
  // steps between them, do to the clock what the sequential calls do.
  lemma PauseIsOneEvent(s0: State, s1: State, s2: State, s3: State, s4: State, s5: State)
    requires s0.control == Idle && !s0.clock.paused
    requires ControlStep(s0, s1) && s2.clock == s1.clock && s2.control == s1.control
    requires ControlStep(s2, s3) && s4.clock == s3.clock && s4.control == s3.control && ControlStep(s4, s5)
    ensures s5.clock == Apply(s0.clock, Pause(s0.wall)) && s5.clock.paused && s5.control == Idle
  {
  }

  lemma ResumeIsOneEvent(s0: State, s1: State, s2: State, s3: State, s4: State, s5: State)
    requires s0.control == Idle && s0.clock.paused
    requires ControlStep(s0, s1) && s2.clock == s1.clock && s2.control == s1.control
    requires ControlStep(s2, s3) && s4.clock == s3.clock && s4.control == s3.control && ControlStep(s4, s5)
    ensures s5.clock == Apply(s0.clock, Resume(s2.wall)) && !s5.clock.paused && s5.control == Idle
  {
  }

  // Nothing writes to the clock and nothing is sent in this part of the run.
  ghost predicate Calm(c: Config, run: seq<State>, i: nat, j: nat) {
    && IsRun(c, run) && i <= j < |run|
    && forall k :: i <= k <= j ==> run[k].clock == run[i].clock && |run[k].sent| == |run[i].sent|
  }

  // Where a sender that started from Fetch at wall time start has got to: it reads the clock at
  // wall time w.
  ghost predicate WaitsAsSlept(due: real, start: real, s: State, w: real) {
    var sleep := Seconds(Streams.Slept(due, Reading(s.clock, w)));
    && start <= w <= s.wall && (!s.sender.Fetch? ==> s.sender.tx == due)
    && match s.sender
       case Fetch => true
       case TestPaused(_) => due > 0.0
       case ReadInstant(_) => due > 0.0 && s.clock.paused
       case SampleWall(_) => due > 0.0 && !s.clock.paused
       case ReadOrigin(_, tp) => due > 0.0 && !s.clock.paused && tp == w
       case Decide(_, x) => due > 0.0 && x == Reading(s.clock, w)
       case Asleep(_, wake) => w + sleep <= wake
       case Ready(_) => w + sleep <= s.wall
  }

  lemma WaitStep(c: Config, due: real, start: real, s: State, s': State, w: real) returns (w': real)
    requires WaitsAsSlept(due, start, s, w) && due == c.due(|s.sent|)
    requires Next(c, s, s') && s'.clock == s.clock && |s'.sent| == |s.sent|
    ensures WaitsAsSlept(due, start, s', w')
  {
    w' := if s.sender.SampleWall? then s.wall else w;
  }

  lemma {:induction false} CalmWait(c: Config, run: seq<State>, i: nat, j: nat) returns (w: real)
    requires Calm(c, run, i, j) && run[i].sender == Fetch
    ensures WaitsAsSlept(c.due(|run[i].sent|), run[i].wall, run[j], w)
    decreases j - i
  {
    w := run[i].wall;
    if i < j {
      w := CalmWait(c, run, i, j - 1);
      assert Next(c, run[j - 1], run[j - 1 + 1]);
      w := WaitStep(c, c.due(|run[i].sent|), run[i].wall, run[j - 1], run[j], w);
    }
  }

  // While no pause or resume writes to the clock, a turn of the sender is a turn of the loop: it
  // reads the clock once and is ready no sooner than the loop's sleep after that.
  lemma CalmTurn(c: Config, run: seq<State>, i: nat, j: nat) returns (w: real)
    requires Calm(c, run, i, j) && run[i].sender == Fetch && run[j].sender.Ready?
    ensures run[i].wall <= w <= run[j].wall && run[j].sender.tx == c.due(|run[i].sent|)
    ensures run[j].wall >= w + Seconds(Streams.Slept(c.due(|run[i].sent|), Reading(run[i].clock, w)))
  {
    w := CalmWait(c, run, i, j);
  }

  // ---------- What a pause does not stop ----------

  function Latest(run: seq<State>): State
    requires run != []
  {
    run[|run| - 1]
  }

  // The clock is paused and the controlling thread has finished pausing it.
  predicate InPause(s: State) {
    s.clock.paused && s.control == Idle
  }

  // The run goes on as longer, and the pause it ends in goes on as long.
  ghost predicate GoesOnPaused(c: Config, run: seq<State>, longer: seq<State>) {
    && IsRun(c, run) && IsRun(c, longer) && run <= longer
    && forall i :: |run| - 1 <= i < |longer| ==> longer[i].clock == Latest(run).clock && longer[i].control == Idle
  }

  // ... and n more packets leave in it, by the wall time given.
  ghost predicate SendsPaused(c: Config, run: seq<State>, longer: seq<State>, n: nat, t: real) {
    && GoesOnPaused(c, run, longer)
    && |Latest(longer).sent| == |Latest(run).sent| + n && Latest(longer).wall <= t
  }

  // How long the loop sleeps for a packet due at tx that it fetches in a pause begun at instant.
  function SleepFor(tx: real, instant: real): (seconds: real)
    ensures if tx > 0.0 && tx > instant then tx - instant - 0.000001 < seconds <= tx - instant else seconds == 0.0
  {
    if tx > 0.0 then Seconds(SleepMicros(tx, instant)) else 0.0
  }

  // The same for n packets from number k on.
  function SleepForAll(c: Config, instant: real, k: nat, n: nat): real
    decreases n
  {
    if n == 0 then 0.0 else SleepFor(c.due(k), instant) + SleepForAll(c, instant, k + 1, n - 1)
  }

  // When a sender that is about to sample the wall clock wakes up if it does so at wall time w.
  function WakesAt(s: State, w: real): real
    requires s.sender.SampleWall?
  {
    w + Seconds(SleepMicros(s.sender.tx, w - s.clock.origin))
  }

  // When the packet at hand can leave at the earliest while the pause lasts.
  function Leaves(c: Config, s: State): real
    requires !s.sender.SampleWall?
  {
    match s.sender
    case Fetch => s.wall + SleepFor(c.due(|s.sent|), s.clock.instant)
    case TestPaused(tx) => s.wall + Seconds(SleepMicros(tx, s.clock.instant))
    case ReadInstant(tx) => s.wall + Seconds(SleepMicros(tx, s.clock.instant))
    case ReadOrigin(tx, tp) => s.wall + Seconds(SleepMicros(tx, tp - s.clock.origin))
    case Decide(tx, x) => s.wall + Seconds(SleepMicros(tx, x))
    case Asleep(_, wake) => if s.wall < wake then wake else s.wall
    case Ready(_) => s.wall
  }

  // n more packets can leave by the time given: the sleep under way, and one for each packet
  // fetched in the pause, fit before it.
  ghost predicate CanSendBy(c: Config, s: State, n: nat, t: real) {
    if n == 0 then s.wall <= t
    else
      var more := SleepForAll(c, s.clock.instant, |s.sent| + 1, n - 1);
      if s.sender.SampleWall? then exists w :: s.wall <= w && WakesAt(s, w) + more <= t
      else Leaves(c, s) + more <= t
  }

  // A step of the pause leaves nothing possible that was not possible before it.
  lemma StepNoSooner(c: Config, s: State, s': State, n: nat, t: real)
    requires InPause(s) && Next(c, s, s') && s'.clock == s.clock && s'.control == Idle
    requires CanSendBy(c, s', n, t)
    ensures |s.sent| <= |s'.sent| <= |s.sent| + 1
    ensures CanSendBy(c, s, n + |s'.sent| - |s.sent|, t)
  {
    assert !ControlStep(s, s');
    if s' == s.(wall := s'.wall) {
      LaterNoSooner(c, s, s', n, t);
    } else {
      SenderNoSooner(c, s, s', n, t);
    }
  }

  lemma LaterNoSooner(c: Config, s: State, s': State, n: nat, t: real)
    requires s.wall <= s'.wall && s' == s.(wall := s'.wall) && CanSendBy(c, s', n, t)
    ensures CanSendBy(c, s, n, t)
  {
    if n > 0 && s.sender.SampleWall? {
      var more := SleepForAll(c, s.clock.instant, |s.sent| + 1, n - 1);
      var w :| s'.wall <= w && WakesAt(s', w) + more <= t;
      assert WakesAt(s, w) == WakesAt(s', w);
    }
  }

  lemma SenderNoSooner(c: Config, s: State, s': State, n: nat, t: real)
    requires InPause(s) && s.wall <= s'.wall && SenderStep(c, s, s') && s'.clock == s.clock
    requires CanSendBy(c, s', n, t)
    ensures |s.sent| <= |s'.sent| <= |s.sent| + 1
    ensures CanSendBy(c, s, n + |s'.sent| - |s.sent|, t)
  {
    if n > 0 && s.sender.SampleWall? {
      assert WakesAt(s, s.wall) <= Leaves(c, s');
    }
  }

  lemma {:induction false} NoSooner(c: Config, run: seq<State>, longer: seq<State>, i: nat)
    requires GoesOnPaused(c, run, longer) && InPause(Latest(run)) && |run| - 1 <= i < |longer|
    ensures |longer[i].sent| <= |Latest(longer).sent|
    ensures CanSendBy(c, longer[i], |Latest(longer).sent| - |longer[i].sent|, Latest(longer).wall)
    decreases |longer| - i
  {
    if i < |longer| - 1 {
      NoSooner(c, run, longer, i + 1);
      assert InPause(longer[i]) && Next(c, longer[i], longer[i + 1]);
      StepNoSooner(c, longer[i], longer[i + 1], |Latest(longer).sent| - |longer[i + 1].sent|, Latest(longer).wall);
    }
  }

  // One more step of the pause.
  lemma Append(c: Config, run: seq<State>, s': State)
    requires IsRun(c, run) && InPause(Latest(run)) && Next(c, Latest(run), s')
    requires s'.clock == Latest(run).clock && s'.control == Idle
    ensures GoesOnPaused(c, run, run + [s']) && Latest(run + [s']) == s'
  {
  }

  lemma GoesOnTwice(c: Config, run: seq<State>, mid: seq<State>, longer: seq<State>)
    requires GoesOnPaused(c, run, mid) && GoesOnPaused(c, mid, longer)
    ensures GoesOnPaused(c, run, longer)
  {
    forall i | |run| - 1 <= i < |longer|
      ensures longer[i].clock == Latest(run).clock && longer[i].control == Idle
    {
      if i < |mid| {
        assert longer[i] == mid[i];
      }
    }
  }

  // How many steps the sender is from its next send.
  function Left(p: Sender): nat {
    match p
    case Fetch => 6
    case TestPaused(_) => 5
    case SampleWall(_) => 5
    case ReadInstant(_) => 4
    case ReadOrigin(_, _) => 4
    case Decide(_, _) => 3
    case Asleep(_, _) => 2
    case Ready(_) => 1
  }

  // The wall time to wait for before the next step, so that nothing is lost.
  ghost function WaitFor(c: Config, s: State, n: nat, t: real): (w: real)
    requires n > 0 && CanSendBy(c, s, n, t)
    ensures s.wall <= w
  {
    match s.sender
    case SampleWall(_) =>
      var more := SleepForAll(c, s.clock.instant, |s.sent| + 1, n - 1);
      var w :| s.wall <= w && WakesAt(s, w) + more <= t; w
    case Asleep(_, wake) => if s.wall < wake then wake else s.wall
    case _ => s.wall
  }

  // The next step of the sender in a pause, at once.
  function Going(c: Config, s: State): State {
    match s.sender
    case Fetch =>
      var tx := c.due(|s.sent|);
      s.(sender := if tx > 0.0 then TestPaused(tx) else Ready(tx))
    case TestPaused(tx) => s.(sender := ReadInstant(tx))
    case ReadInstant(tx) => s.(sender := Decide(tx, s.clock.instant))
    case SampleWall(tx) => s.(sender := ReadOrigin(tx, s.wall))
    case ReadOrigin(tx, tp) => s.(sender := Decide(tx, tp - s.clock.origin))
    case Decide(tx, x) => s.(sender := if tx > x then Asleep(tx, s.wall + Seconds(SleepMicros(tx, x))) else Ready(tx))
    case Asleep(tx, _) => s.(sender := Ready(tx))
    case Ready(tx) => s.(sender := Fetch, sent := s.sent + [Sent(s.wall, tx)])
  }

  lemma GoingSteps(c: Config, s: State)
    requires InPause(s) && (s.sender.Asleep? ==> s.sender.wake <= s.wall)
    ensures var s' := Going(c, s);
            && SenderStep(c, s, s') && s'.clock == s.clock && s'.control == Idle
            && |s'.sent| == |s.sent| + (if s.sender.Ready? then 1 else 0)
            && (!s.sender.Ready? ==> Left(s'.sender) < Left(s.sender))
  {
  }

  lemma GoingKeepsPace(c: Config, s: State, n: nat, t: real)
    requires InPause(s) && n > 0 && CanSendBy(c, s, n, t)
    ensures var s' := Going(c, s.(wall := WaitFor(c, s, n, t)));
            CanSendBy(c, s', if s.sender.Ready? then n - 1 else n, t)
  {
  }

  // A pause in which n more packets leave by t, from any state in which that is possible.
  lemma {:induction false} SendInPause(c: Config, run: seq<State>, n: nat, t: real) returns (longer: seq<State>)
    requires IsRun(c, run) && InPause(Latest(run)) && CanSendBy(c, Latest(run), n, t)
    ensures SendsPaused(c, run, longer, n, t)
    decreases n, Left(Latest(run).sender)
  {
    longer := run;
    if n > 0 {
      var s := Latest(run);
      var waited := s.(wall := WaitFor(c, s, n, t));
      var s' := Going(c, waited);
      GoingSteps(c, waited);
      GoingKeepsPace(c, s, n, t);
      Append(c, run, waited);
      var run1 := run + [waited];
      Append(c, run1, s');
      var run2 := run1 + [s'];
      GoesOnTwice(c, run, run1, run2);
      longer := SendInPause(c, run2, if s.sender.Ready? then n - 1 else n, t);
      GoesOnTwice(c, run, run2, longer);
    }
  }

  // What a pause keeps from being sent, exactly: wherever the sender stands when it begins, n more
  // packets can leave while it lasts by wall time t if and only if their sleeps fit before t. So a
  // paused stream sends nothing until t exactly if CanSendBy(c, s, 1, t) is false.
  lemma PausedSendsExactly(c: Config, run: seq<State>, n: nat, t: real)
    requires IsRun(c, run) && InPause(Latest(run))
    ensures (exists longer :: SendsPaused(c, run, longer, n, t)) <==> CanSendBy(c, Latest(run), n, t)
  {
    if CanSendBy(c, Latest(run), n, t) {
      var longer := SendInPause(c, run, n, t);
    }
    if longer :| SendsPaused(c, run, longer, n, t) {
      NoSooner(c, run, longer, |run| - 1);
      LaterLimit(c, Latest(run), n, Latest(longer).wall, t);
    }
  }

  lemma LaterLimit(c: Config, s: State, n: nat, t: real, t': real)
    requires CanSendBy(c, s, n, t) && t <= t'
    ensures CanSendBy(c, s, n, t')
  {
  }

  // A pause that begins before a packet is fetched delays it by the sleep for its whole stamp,
  // counted from the instant of the pause; a stamp already past is not delayed at all.
  lemma FetchedInPause(c: Config, run: seq<State>, t: real)
    requires IsRun(c, run) && InPause(Latest(run)) && Latest(run).sender == Fetch
    ensures var s := Latest(run);
            (exists longer :: SendsPaused(c, run, longer, 1, t))
            <==> s.wall + SleepFor(c.due(|s.sent|), s.clock.instant) <= t
  {
    PausedSendsExactly(c, run, 1, t);
  }

  // No pause stops a stream: from every paused state of every run, any number of packets can leave
  // while the pause lasts.
  lemma PausedStreamKeepsSending(c: Config, run: seq<State>, n: nat) returns (longer: seq<State>)
    requires IsRun(c, run) && InPause(Latest(run))
    ensures GoesOnPaused(c, run, longer) && |Latest(longer).sent| == |Latest(run).sent| + n
  {
    var s := Latest(run);
    var more := if n == 0 then 0.0 else SleepForAll(c, s.clock.instant, |s.sent| + 1, n - 1);
    var t := if n == 0 then s.wall else if s.sender.SampleWall? then WakesAt(s, s.wall) + more else Leaves(c, s) + more;
    assert CanSendBy(c, s, n, t);
    longer := SendInPause(c, run, n, t);
  }

  // For every schedule: paused before its first packet, a stream can send any number of them.
  lemma PausedStreamStillSends(c: Config, n: nat) returns (run: seq<State>, longer: seq<State>)
    ensures IsRun(c, run) && InPause(Latest(run)) && Latest(run).sent == []
    ensures GoesOnPaused(c, run, longer) && |Latest(longer).sent| == n
  {
    var s0 := State(c.start, Clock(c.start, 0.0, false), false, Idle, Fetch, []);
    var s1 := s0.(control := PauseSampled(c.start));
    var s2 := s1.(clock := s1.clock.(instant := c.start - c.start), stored := true, control := PauseStored);
    var s3 := s2.(clock := s2.clock.(paused := true), control := Idle);
    run := [s0, s1, s2, s3];
    assert ControlStep(s0, s1) && ControlStep(s1, s2) && ControlStep(s2, s3);
    longer := PausedStreamKeepsSending(c, run, n);
  }
}
