// The same writer called from many threads at once, as interleaved steps. Every thread has its
// own place in the program; the session lock and one lock for each measurement point are shared.
module RegistrySteps {
  import opened Registry
  import opened Wrappers

  datatype AnyCall = Call(ds: DataSet, vl: ValueList)

  type Call = c: AnyCall | |c.ds.sources| <= |c.vl.values|
    witness Call(DataSet([], []), ValueList(0, None, None, None, None, None, []))

  // Where a thread is. A handle stands for the measurement point it is about.
  datatype Place =
    | Idle
    | WantFind(call: Call)                        // before the lock in find_mpoint
    | Searching(call: Call, n: nat)               // nodes 0 to n - 1 are still to be compared
    | Registering(call: Call)                     // in create_mpoint, before omlc_add_mp
    | Linking(call: Call, h: nat)                 // registered, not yet in the list
    | Found(call: Call, h: nat)                   // before the unlock in find_mpoint
    | WantCheck(call: Call, h: nat)               // before the second lock of oml_write
    | Checking(call: Call, h: nat)                // looking at oml_initialized
    | Leaving(call: Call, h: nat)                 // not initialized: before the unlock
    | Passed(call: Call, h: nat)                  // initialized: before the unlock
    | Building(call: Call, h: nat)                // filling the array of values
    | WantPoint(call: Call, h: nat)               // before the lock of the measurement point
    | Injecting(call: Call, h: nat)               // in omlc_inject
    | Injected(call: Call, h: nat)                // before the unlock
    | WantInit(ok: bool)                          // oml_init, before the lock
    | Initializing(ok: bool)
    | Initialized                                 // before the unlock

  // What an idle thread is asked to do.
  datatype Request = Write(call: Call) | Init(ok: bool)

  datatype Sent = Sent(handle: nat, call: Call, values: seq<Value>)

  // list is session.mpoint, its first node last; created remembers the data set each measurement
  // point was made for, and started whether OML has ever been initialized.
  datatype State = State(
    max: nat, list: seq<nat>, registered: seq<Registration>, created: seq<DataSet>, initialized: bool, started: bool,
    sessionLock: Option<nat>, pointLocks: map<nat, nat>, sent: seq<Sent>, threads: seq<Place>)

  predicate HoldsSession(p: Place) {
    p.Searching? || p.Registering? || p.Linking? || p.Found? || p.Checking? || p.Leaving? || p.Passed?
    || p.Initializing? || p.Initialized?
  }

  predicate HoldsPoint(p: Place, h: nat) {
    (p.Injecting? || p.Injected?) && p.h == h
  }

  function KeyOf(s: State, c: Call): seq<char> {
    Prefix(c.ds.name, s.max)
  }

  // ---------- The invariant ----------

  // What a thread knows about the list at its place.
  ghost predicate Knows(s: State, p: Place) {
    match p
    case Idle | WantFind(_) | WantInit(_) | Initializing(_) | Initialized => true
    case Searching(c, n) =>
      n <= |s.list| && forall j :: n <= j < |s.registered| ==> s.registered[j].name != KeyOf(s, c)
    case Registering(c) => !Known(s.registered, KeyOf(s, c))
    case Linking(c, h) => h == |s.list| && Names(s.registered, h, KeyOf(s, c))
    case Passed(c, h) => Names(s.registered, h, KeyOf(s, c)) && s.started
    case Building(c, h) => Names(s.registered, h, KeyOf(s, c)) && s.started
    case WantPoint(c, h) => Names(s.registered, h, KeyOf(s, c)) && s.started && |c.vl.values| < MAX_VALUES - HEADER
    case Injecting(c, h) => Names(s.registered, h, KeyOf(s, c)) && s.started && |c.vl.values| < MAX_VALUES - HEADER
    case Injected(c, h) =>
      Names(s.registered, h, KeyOf(s, c)) && |c.vl.values| < MAX_VALUES - HEADER
      && Sent(h, c, Row(c.ds, c.vl)) in s.sent
    case _ => Names(s.registered, p.h, KeyOf(s, p.call))
  }

  // Exactly the holder of a lock is behind it.
  ghost predicate SessionHeld(s: State) {
    && (s.sessionLock.Some? ==> s.sessionLock.value < |s.threads|)
    && forall t :: 0 <= t < |s.threads| ==> (HoldsSession(s.threads[t]) <==> s.sessionLock == Some(t))
  }

  ghost predicate PointsHeld(s: State) {
    && (forall h :: h in s.pointLocks ==> s.pointLocks[h] < |s.threads|)
    && forall t, h: nat :: 0 <= t < |s.threads| ==>
         (HoldsPoint(s.threads[t], h) <==> h in s.pointLocks && s.pointLocks[h] == t)
  }

  // A measurement point is registered but not yet in the list.
  predicate Pending(s: State) {
    s.sessionLock.Some? && s.sessionLock.value < |s.threads| && s.threads[s.sessionLock.value].Linking?
  }

  // The list holds what is registered ...
  predicate ListComplete(s: State) {
    && |s.registered| == |s.list| + (if Pending(s) then 1 else 0)
    && forall i :: 0 <= i < |s.list| ==> s.list[i] == i
  }

  // ... each name once.
  ghost predicate NamesOnce(max: nat, registered: seq<Registration>, created: seq<DataSet>) {
    && Distinct(registered) && |registered| == |created|
    && forall h :: 0 <= h < |registered| ==> registered[h] == RegistrationOf(max, created[h])
  }

  function RegistrationOf(max: nat, ds: DataSet): Registration {
    Registration(Prefix(ds.name, max), Columns(ds))
  }

  ghost predicate ListSound(s: State) {
    ListComplete(s) && NamesOnce(s.max, s.registered, s.created)
  }

  // What was sent went to the caller's measurement point and is the caller's row.
  predicate SentRight(s: State, x: Sent) {
    && Names(s.registered, x.handle, KeyOf(s, x.call))
    && |x.call.vl.values| < MAX_VALUES - HEADER && x.values == Row(x.call.ds, x.call.vl)
  }

  // Nothing is sent before OML was initialized.
  ghost predicate SentSound(s: State) {
    && (s.initialized || s.sent != [] ==> s.started)
    && forall k :: 0 <= k < |s.sent| ==> SentRight(s, s.sent[k])
  }

  ghost predicate Inv(s: State) {
    && SessionHeld(s) && PointsHeld(s) && ListSound(s) && SentSound(s)
    && forall t :: 0 <= t < |s.threads| ==> Knows(s, s.threads[t])
  }

  // Nothing registered yet; any number of idle threads.
  function Start(max: nat, threads: nat): (s: State)
    ensures Inv(s)
  {
    State(max, [], [], [], false, false, None, map[], [], seq(threads, _ => Idle))
  }

  // ---------- The steps ----------

  // The one thing a step changes beside the place of its thread.
  datatype Change =
    | Nothing
    | TakeSession
    | GiveSession
    | TakePoint(h: nat)
    | GivePoint(h: nat)
    | Register(ds: DataSet)
    | LinkIn(h: nat)
    | Send(sent: Sent)
    | SetInitialized(ok: bool)

  datatype Move = Move(to: Place, change: Change)

  // The next step of a thread at p. The request is for idle threads.
  ghost function NextMove(s: State, p: Place, r: Request): Move
    requires ListSound(s) && Knows(s, p)
  {
    match p
    case Idle => Move(match r case Write(c) => WantFind(c) case Init(ok) => WantInit(ok), Nothing)
    case WantFind(c) => Move(Searching(c, |s.list|), TakeSession)
    case Searching(c, n) =>
      if n == 0 then Move(Registering(c), Nothing)
      else if s.registered[s.list[n - 1]].name == KeyOf(s, c) then Move(Found(c, s.list[n - 1]), Nothing)
      else Move(Searching(c, n - 1), Nothing)
    case Registering(c) => Move(Linking(c, |s.registered|), Register(c.ds))
    case Linking(c, h) => Move(Found(c, h), LinkIn(h))
    case Found(c, h) => Move(WantCheck(c, h), GiveSession)
    case WantCheck(c, h) => Move(Checking(c, h), TakeSession)
    case Checking(c, h) => Move(if s.initialized then Passed(c, h) else Leaving(c, h), Nothing)
    case Leaving(_, _) => Move(Idle, GiveSession)
    case Passed(c, h) => Move(Building(c, h), GiveSession)
    case Building(c, h) => Move(if |c.vl.values| >= MAX_VALUES - HEADER then Idle else WantPoint(c, h), Nothing)
    case WantPoint(c, h) => Move(Injecting(c, h), TakePoint(h))
    case Injecting(c, h) => Move(Injected(c, h), Send(Sent(h, c, Row(c.ds, c.vl))))
    case Injected(c, h) => Move(Idle, GivePoint(h))
    case WantInit(ok) => Move(Initializing(ok), TakeSession)
    case Initializing(ok) => Move(Initialized, SetInitialized(ok))
    case Initialized => Move(Idle, GiveSession)
  }

  // A lock that is held cannot be taken.
  predicate Possible(s: State, c: Change) {
    (c.TakeSession? ==> s.sessionLock == None) && (c.TakePoint? ==> c.h !in s.pointLocks)
  }

  // The state after a move of thread t.
  function Result(s: State, t: nat, m: Move): State
    requires t < |s.threads|
  {
    var c := m.change;
    State(
      s.max,
      if c.LinkIn? then s.list + [c.h] else s.list,
      if c.Register? then s.registered + [RegistrationOf(s.max, c.ds)] else s.registered,
      if c.Register? then s.created + [c.ds] else s.created,
      if c.SetInitialized? then c.ok else s.initialized,
      s.started || (c.SetInitialized? && c.ok),
      if c.TakeSession? then Some(t) else if c.GiveSession? then None else s.sessionLock,
      if c.TakePoint? then s.pointLocks[c.h := t] else if c.GivePoint? then s.pointLocks - {c.h} else s.pointLocks,
      if c.Send? then s.sent + [c.sent] else s.sent,
      s.threads[t := m.to])
  }

  // One step of thread t; None if it has to wait.
  ghost function Step(s: State, t: nat, r: Request): Option<State>
    requires Inv(s) && t < |s.threads|
  {
    var m := NextMove(s, s.threads[t], r);
    if Possible(s, m.change) then Some(Result(s, t, m)) else None
  }

  // ---------- Every step keeps the invariant ----------

  // A thread comes to hold a lock by taking it and stops by giving it back.
  ghost predicate SessionOrderly(p: Place, m: Move) {
    && (m.change.TakeSession? <==> !HoldsSession(p) && HoldsSession(m.to))
    && (m.change.GiveSession? <==> HoldsSession(p) && !HoldsSession(m.to))
  }

  ghost predicate PointOrderly(p: Place, m: Move) {
    && (forall h: nat :: m.change == TakePoint(h) <==> !HoldsPoint(p, h) && HoldsPoint(m.to, h))
    && (forall h: nat :: m.change == GivePoint(h) <==> HoldsPoint(p, h) && !HoldsPoint(m.to, h))
  }

  // Only a new name is registered, and what is registered is linked next.
  ghost predicate ListOrderly(s: State, p: Place, m: Move) {
    && (p.Registering? <==> m.change.Register?) && (p.Registering? <==> m.to.Linking?)
    && (p.Linking? <==> m.change.LinkIn?)
    && (m.change.Register? ==> !Known(s.registered, Prefix(m.change.ds.name, s.max)))
    && (m.change.LinkIn? ==> m.change.h == |s.list|)
  }

  lemma MovesAreOrderly(s: State, p: Place, r: Request)
    requires ListSound(s) && Knows(s, p)
    ensures SessionOrderly(p, NextMove(s, p, r))
    ensures ListOrderly(s, p, NextMove(s, p, r))
  {
  }

  lemma PointMovesAreOrderly(s: State, p: Place, r: Request)
    requires ListSound(s) && Knows(s, p)
    ensures PointOrderly(p, NextMove(s, p, r))
  {
  }

  lemma SentIsRight(s: State, p: Place, r: Request)
    requires ListSound(s) && Knows(s, p)
    ensures NextMove(s, p, r).change.Send? ==> s.started && SentRight(s, NextMove(s, p, r).change.sent)
  {
  }

  lemma KeepsSession(s: State, t: nat, m: Move)
    requires SessionHeld(s) && t < |s.threads| && SessionOrderly(s.threads[t], m) && Possible(s, m.change)
    ensures SessionHeld(Result(s, t, m))
  {
  }

  lemma KeepsPoints(s: State, t: nat, m: Move)
    requires PointsHeld(s) && t < |s.threads| && PointOrderly(s.threads[t], m) && Possible(s, m.change)
    ensures PointsHeld(Result(s, t, m))
  {
  }

  lemma KeepsList(s: State, t: nat, m: Move)
    requires SessionHeld(s) && ListComplete(s) && t < |s.threads|
    requires SessionOrderly(s.threads[t], m) && ListOrderly(s, s.threads[t], m) && Possible(s, m.change)
    ensures ListComplete(Result(s, t, m))
  {
    assert HoldsSession(s.threads[t]) <==> s.sessionLock == Some(t);
  }

  lemma KeepsNames(s: State, t: nat, m: Move)
    requires NamesOnce(s.max, s.registered, s.created) && t < |s.threads| && ListOrderly(s, s.threads[t], m)
    ensures var s' := Result(s, t, m);
            NamesOnce(s'.max, s'.registered, s'.created)
  {
    if m.change.Register? {
      NewNameKeepsOnce(s.max, s.registered, s.created, m.change.ds);
    }
  }

  lemma NewNameKeepsOnce(max: nat, registered: seq<Registration>, created: seq<DataSet>, ds: DataSet)
    requires NamesOnce(max, registered, created) && !Known(registered, Prefix(ds.name, max))
    ensures NamesOnce(max, registered + [RegistrationOf(max, ds)], created + [ds])
  {
    NewNameKeepsDistinct(registered, RegistrationOf(max, ds));
  }

  lemma KeepsSent(s: State, t: nat, m: Move)
    requires SentSound(s) && t < |s.threads| && (m.change.Send? ==> s.started && SentRight(s, m.change.sent))
    ensures SentSound(Result(s, t, m))
  {
  }

  // What a step adds, it adds at the end.
  lemma Grows(s: State, t: nat, m: Move)
    requires t < |s.threads|
    ensures var s' := Result(s, t, m);
            && s.max == s'.max && s.registered <= s'.registered && s.created <= s'.created && s.sent <= s'.sent
            && (s.started ==> s'.started)
  {
  }

  // Points are registered and linked only behind the session lock.
  lemma OnlyBehindLock(s: State, t: nat, m: Move)
    requires SessionHeld(s) && t < |s.threads| && ListOrderly(s, s.threads[t], m) && s.sessionLock != Some(t)
    ensures s.registered == Result(s, t, m).registered && s.list == Result(s, t, m).list
  {
    assert !HoldsSession(s.threads[t]);
  }

  // What is known stays known while the list stays or the thread is not looking at it.
  lemma KnowsStays(s: State, s': State, p: Place)
    requires Knows(s, p) && s.max == s'.max && s.registered <= s'.registered
    requires s.sent <= s'.sent && (s.started ==> s'.started)
    requires HoldsSession(p) ==> s.registered == s'.registered && s.list == s'.list
    ensures Knows(s', p)
  {
  }

  // Whether a thread at p is about to search or extend the list.
  predicate AtList(p: Place) {
    p.WantFind? || p.Searching? || p.Registering? || p.Linking?
  }

  // The thread that moves knows what it should at its new place.
  lemma MoveAtListKnows(s: State, t: nat, r: Request)
    requires ListSound(s) && t < |s.threads| && Knows(s, s.threads[t]) && AtList(s.threads[t])
    requires SessionHeld(s) && Possible(s, NextMove(s, s.threads[t], r).change)
    ensures var m := NextMove(s, s.threads[t], r);
            Knows(Result(s, t, m), m.to)
  {
    assert HoldsSession(s.threads[t]) <==> s.sessionLock == Some(t);
  }

  lemma MoveElsewhereKnows(s: State, t: nat, r: Request)
    requires ListSound(s) && SentSound(s) && t < |s.threads| && Knows(s, s.threads[t]) && !AtList(s.threads[t])
    ensures var m := NextMove(s, s.threads[t], r);
            Knows(Result(s, t, m), m.to)
  {
  }

  lemma StepKeepsInv(s: State, t: nat, r: Request)
    requires Inv(s) && t < |s.threads| && Step(s, t, r).Some?
    ensures Inv(Step(s, t, r).value)
  {
    var m := NextMove(s, s.threads[t], r);
    var s' := Result(s, t, m);
    MovesAreOrderly(s, s.threads[t], r);
    PointMovesAreOrderly(s, s.threads[t], r);
    SentIsRight(s, s.threads[t], r);
    KeepsSession(s, t, m);
    KeepsPoints(s, t, m);
    KeepsList(s, t, m);
    KeepsNames(s, t, m);
    KeepsSent(s, t, m);
    Grows(s, t, m);
    if s.sessionLock != Some(t) {
      OnlyBehindLock(s, t, m);
    }
    forall u | 0 <= u < |s.threads|
      ensures Knows(s', s'.threads[u])
    {
      if u == t {
        if AtList(s.threads[t]) {
          MoveAtListKnows(s, t, r);
        } else {
          MoveElsewhereKnows(s, t, r);
        }
      } else {
        assert HoldsSession(s.threads[u]) <==> s.sessionLock == Some(u);
        KnowsStays(s, s', s.threads[u]);
      }
    }
  }

  // ---------- Runs ----------

  // Thread t is scheduled; the request is what it is asked if it is idle.
  datatype Turn = Turn(t: nat, request: Request)

  // A thread that has to wait, or does not exist, changes nothing.
  ghost function Scheduled(s: State, a: Turn): (s': State)
    requires Inv(s)
    ensures Inv(s')
  {
    if a.t < |s.threads| && Step(s, a.t, a.request).Some? then
      StepKeepsInv(s, a.t, a.request);
      Step(s, a.t, a.request).value
    else s
  }

  ghost function Run(s: State, turns: seq<Turn>): (s': State)
    requires Inv(s)
    ensures Inv(s')
  {
    if turns == [] then s else Scheduled(Run(s, turns[..|turns| - 1]), turns[|turns| - 1])
  }

  lemma {:induction false} RunGrows(s: State, turns: seq<Turn>)
    requires Inv(s)
    ensures var s' := Run(s, turns);
            && s'.max == s.max && s.registered <= s'.registered && s.created <= s'.created && s.sent <= s'.sent
  {
    if turns != [] {
      var before, a := Run(s, turns[..|turns| - 1]), turns[|turns| - 1];
      RunGrows(s, turns[..|turns| - 1]);
      if a.t < |before.threads| && Step(before, a.t, a.request).Some? {
        Grows(before, a.t, NextMove(before, before.threads[a.t], a.request));
      }
    }
  }

  // How often omlc_add_mp was called with a name.
  function Registrations(regs: seq<Registration>, name: seq<char>): nat {
    if regs == [] then 0
    else Registrations(regs[..|regs| - 1], name) + if regs[|regs| - 1].name == name then 1 else 0
  }

  lemma {:induction false} DistinctOnce(regs: seq<Registration>, name: seq<char>)
    requires Distinct(regs)
    ensures Registrations(regs, name) == if Known(regs, name) then 1 else 0
  {
    if regs != [] {
      var front, last := regs[..|regs| - 1], regs[|regs| - 1];
      DistinctOnce(front, name);
      assert forall h: nat :: Names(front, h, name) ==> Names(regs, h, name);
      assert forall h: nat :: Names(regs, h, name) ==> Names(front, h, name) || h == |front|;
      if last.name == name {
        assert Names(regs, |front|, name);
      }
    }
  }

  // The thread is past find_mpoint and has its measurement point.
  predicate HasPoint(p: Place) {
    p.Found? || p.WantCheck? || p.Checking? || p.Leaving? || p.Passed? || p.Building? || p.WantPoint?
    || p.Injecting? || p.Injected?
  }

  // In every run a measurement point is made at most once for each name prefix, and exactly once
  // as soon as some call with that prefix has its point.
  lemma OnePointPerPrefix(max: nat, threads: nat, turns: seq<Turn>, name: seq<char>)
    ensures var s := Run(Start(max, threads), turns);
            && Registrations(s.registered, name) <= 1
            && forall t :: 0 <= t < |s.threads| && HasPoint(s.threads[t]) && KeyOf(s, s.threads[t].call) == name ==>
                 Registrations(s.registered, name) == 1
  {
    var s := Run(Start(max, threads), turns);
    DistinctOnce(s.registered, name);
    forall t | 0 <= t < |s.threads| && HasPoint(s.threads[t]) && KeyOf(s, s.threads[t].call) == name
      ensures Known(s.registered, name)
    {
      assert Knows(s, s.threads[t]) && Names(s.registered, s.threads[t].h, name);
    }
  }

  lemma PointIsNamed(s: State, t: nat)
    requires Inv(s) && t < |s.threads| && HasPoint(s.threads[t])
    ensures Names(s.registered, s.threads[t].h, KeyOf(s, s.threads[t].call))
  {
    assert Knows(s, s.threads[t]);
  }

  // Two calls get the same measurement point, however much happens in between, exactly if their
  // names agree below the limit; and it stays registered as it was.
  lemma SamePointForEver(s: State, turns: seq<Turn>, t: nat, u: nat, s': State)
    requires Inv(s) && s' == Run(s, turns)
    requires t < |s.threads| && HasPoint(s.threads[t]) && u < |s'.threads| && HasPoint(s'.threads[u])
    ensures var h := s.threads[t].h;
            h < |s.registered| <= |s'.registered| && s'.registered[h] == s.registered[h]
    ensures s'.threads[u].h == s.threads[t].h
            <==> AgreeBelow(s.threads[t].call.ds.name, s'.threads[u].call.ds.name, s.max)
  {
    RunGrows(s, turns);
    PointIsNamed(s, t);
    PointIsNamed(s', u);
    var h, h' := s.threads[t].h, s'.threads[u].h;
    assert s'.registered[h].name == s'.registered[h'].name <==> h == h';
    OnePrefix(s.threads[t].call.ds.name, s'.threads[u].call.ds.name, s.max);
  }

  // The same of what was sent.
  lemma SentTogether(s: State, j: nat, k: nat)
    requires Inv(s) && j < |s.sent| && k < |s.sent|
    ensures s.sent[j].handle == s.sent[k].handle
            <==> AgreeBelow(s.sent[j].call.ds.name, s.sent[k].call.ds.name, s.max)
  {
    var x, y := s.sent[j], s.sent[k];
    assert SentRight(s, x) && SentRight(s, y);
    assert s.registered[x.handle].name == s.registered[y.handle].name <==> x.handle == y.handle;
    OnePrefix(x.call.ds.name, y.call.ds.name, s.max);
  }

  // No deadlock: whoever waits waits for a thread that holds the lock and can go on.
  lemma WaitingIsForOneThatCanGo(s: State, t: nat, r: Request) returns (u: nat)
    requires Inv(s) && t < |s.threads| && Step(s, t, r).None?
    ensures u < |s.threads| && u != t && Step(s, u, r).Some?
    ensures var p := s.threads[t];
            if p.WantPoint? then p.h in s.pointLocks && s.pointLocks[p.h] == u
            else (p.WantFind? || p.WantCheck? || p.WantInit?) && s.sessionLock == Some(u)
  {
    var p := s.threads[t];
    if p.WantPoint? {
      u := s.pointLocks[p.h];
      assert HoldsPoint(s.threads[u], p.h);
    } else {
      u := s.sessionLock.value;
      assert HoldsSession(s.threads[u]);
    }
    HoldersGo(s, u, r);
  }

  // Whoever is behind a lock waits for no other.
  lemma HoldersGo(s: State, u: nat, r: Request)
    requires Inv(s) && u < |s.threads|
    requires HoldsSession(s.threads[u]) || s.threads[u].Injecting? || s.threads[u].Injected?
    ensures Step(s, u, r).Some?
  {
  }

  // Two injections on one measurement point never overlap.
  lemma InjectionsDoNotOverlap(s: State, t: nat, u: nat)
    requires Inv(s) && t < |s.threads| && u < |s.threads|
    requires s.threads[t].Injecting? && s.threads[u].Injecting? && s.threads[t].h == s.threads[u].h
    ensures t == u
  {
    var h := s.threads[t].h;
    assert HoldsPoint(s.threads[t], h) && HoldsPoint(s.threads[u], h);
    assert s.pointLocks[h] == t && s.pointLocks[h] == u;
  }

  // Nor do two searches or additions to the list, or one of them and a change of the session.
  lemma FindsDoNotOverlap(s: State, t: nat, u: nat)
    requires Inv(s) && t < |s.threads| && u < |s.threads|
    requires forall p :: p == s.threads[t] || p == s.threads[u] ==>
                           p.Searching? || p.Registering? || p.Linking? || p.Checking? || p.Initializing?
    ensures t == u
  {
    assert HoldsSession(s.threads[t]) && HoldsSession(s.threads[u]);
  }

  // A row sent fits the columns of its measurement point exactly if the caller's data set covers
  // the one the point was made for; so it does if they are the same.
  lemma SentFits(s: State, k: nat)
    requires Inv(s) && k < |s.sent|
    ensures var x := s.sent[k];
            && x.handle < |s.registered| == |s.created|
            && s.registered[x.handle].name == KeyOf(s, x.call)
            && (Fits(s.registered[x.handle].columns, x.values) <==> Covers(s.created[x.handle], x.call.ds))
            && (s.created[x.handle] == x.call.ds ==> Fits(s.registered[x.handle].columns, x.values))
  {
    var x := s.sent[k];
    assert SentRight(s, x);
    RowFits(s.created[x.handle], x.call.ds, x.call.vl);
  }

  // Nothing is ever sent unless OML was initialized, and a call that is past its injection has
  // sent its row to its point.
  lemma InjectedWasSent(s: State, t: nat)
    requires Inv(s) && t < |s.threads|
    ensures s.sent != [] ==> s.started
    ensures s.threads[t].Injected? ==>
              var c := s.threads[t].call;
              |c.vl.values| < MAX_VALUES - HEADER && Sent(s.threads[t].h, c, Row(c.ds, c.vl)) in s.sent
  {
    assert Knows(s, s.threads[t]);
  }

  // ---------- find_mpoint is atomic ----------

  // Behind the lock of find_mpoint.
  predicate Finding(p: Place) {
    p.Searching? || p.Registering? || p.Linking? || p.Found?
  }

  // Until it registers, a thread sees the registrations regs; from then on, what
  // Session.FindMPoint makes of them when it runs alone.
  ghost predicate AsAlone(regs: seq<Registration>, s: State, p: Place)
    requires Finding(p)
  {
    if p.Searching? || p.Registering? then s.registered == regs
    else s.registered == LookedUp(regs, KeyOf(s, p.call), Columns(p.call.ds))
  }

  lemma OwnStepAsAlone(regs: seq<Registration>, s: State, t: nat, r: Request)
    requires Inv(s) && t < |s.threads| && Finding(s.threads[t]) && AsAlone(regs, s, s.threads[t])
    requires Step(s, t, r).Some? && Finding(Step(s, t, r).value.threads[t])
    ensures AsAlone(regs, Step(s, t, r).value, Step(s, t, r).value.threads[t])
  {
    var p := s.threads[t];
    assert Knows(s, p);
    if p.Searching? && p.n > 0 && s.registered[s.list[p.n - 1]].name == KeyOf(s, p.call) {
      assert Names(regs, s.list[p.n - 1], KeyOf(s, p.call));
    }
  }

  lemma ScheduledAsAlone(regs: seq<Registration>, s: State, t: nat, a: Turn)
    requires Inv(s) && t < |s.threads| && Finding(s.threads[t]) && AsAlone(regs, s, s.threads[t])
    ensures var s' := Scheduled(s, a);
            |s'.threads| == |s.threads| && (Finding(s'.threads[t]) ==> AsAlone(regs, s', s'.threads[t]))
  {
    if a.t < |s.threads| && Step(s, a.t, a.request).Some? {
      if a.t == t {
        if Finding(Scheduled(s, a).threads[t]) {
          OwnStepAsAlone(regs, s, t, a.request);
        }
      } else {
        assert HoldsSession(s.threads[t]) <==> s.sessionLock == Some(t);
        MovesAreOrderly(s, s.threads[a.t], a.request);
        Grows(s, a.t, NextMove(s, s.threads[a.t], a.request));
        assert s.sessionLock != Some(a.t);
        OnlyBehindLock(s, a.t, NextMove(s, s.threads[a.t], a.request));
      }
    }
  }

  // However the threads are scheduled while t is behind the lock, it leaves the registrations as
  // if it had run alone.
  lemma {:induction false} FindIsAtomic(s: State, turns: seq<Turn>, t: nat)
    requires Inv(s) && t < |s.threads| && s.threads[t].Searching?
    requires forall k :: 0 <= k <= |turns| ==>
               t < |Run(s, turns[..k]).threads| && Finding(Run(s, turns[..k]).threads[t])
    ensures t < |Run(s, turns).threads| && Finding(Run(s, turns).threads[t])
    ensures AsAlone(s.registered, Run(s, turns), Run(s, turns).threads[t])
  {
    assert turns[..|turns|] == turns;
    if turns != [] {
      var front := turns[..|turns| - 1];
      assert forall k :: 0 <= k <= |front| ==> front[..k] == turns[..k];
      FindIsAtomic(s, front, t);
      ScheduledAsAlone(s.registered, Run(s, front), t, turns[|turns| - 1]);
    }
  }

  // ---------- Every call ends ----------

  // How far a thread has to go, counted back from idle.
  function Phase(p: Place): nat {
    match p
    case Idle => 0
    case WantFind(_) => 13
    case Searching(_, _) => 12
    case Registering(_) => 11
    case Linking(_, _) => 10
    case Found(_, _) => 9
    case WantCheck(_, _) => 8
    case Checking(_, _) => 7
    case Leaving(_, _) => 1
    case Passed(_, _) => 6
    case Building(_, _) => 5
    case WantPoint(_, _) => 4
    case Injecting(_, _) => 3
    case Injected(_, _) => 2
    case WantInit(_) => 3
    case Initializing(_) => 2
    case Initialized => 1
  }

  function Ahead(p: Place): nat {
    if p.Searching? then p.n else 0
  }

  lemma MovesOn(s: State, p: Place, r: Request)
    requires ListSound(s) && Knows(s, p) && p != Idle
    ensures var p' := NextMove(s, p, r).to;
            Phase(p') < Phase(p) || (Phase(p') == Phase(p) && Ahead(p') < Ahead(p))
  {
  }

  // Each step of a call brings its thread nearer to idle, so a call takes finitely many steps of
  // its own: at most thirteen and one for each node compared.
  lemma CallsEnd(s: State, t: nat, r: Request)
    requires Inv(s) && t < |s.threads| && s.threads[t] != Idle && Step(s, t, r).Some?
    ensures var p, p' := s.threads[t], Step(s, t, r).value.threads[t];
            Phase(p') < Phase(p) || (Phase(p') == Phase(p) && Ahead(p') < Ahead(p))
  {
    MovesOn(s, s.threads[t], r);
  }

  // ---------- A thread left alone ----------

  // The locks are free, or held by thread t.
  ghost predicate Alone(s: State, t: nat) {
    && t < |s.threads| && (s.sessionLock == None || s.sessionLock == Some(t))
    && forall h :: h in s.pointLocks ==> s.pointLocks[h] == t
  }

  // In oml_write.
  predicate Writing(p: Place) {
    p.WantFind? || p.Searching? || p.Registering? || p.Linking? || HasPoint(p)
  }

  // The call at p has yet to send its row.
  predicate WillSend(initialized: bool, p: Place)
    requires Writing(p)
  {
    && |p.call.vl.values| < 58
    && (if p.Passed? || p.Building? || p.WantPoint? || p.Injecting? then true
        else initialized && !p.Leaving? && !p.Injected?)
  }

  // What the registrations will be once the point is found.
  ghost function Outcome(s: State, p: Place): seq<Registration>
    requires Writing(p)
  {
    if p.WantFind? || p.Searching? || p.Registering? then LookedUp(s.registered, KeyOf(s, p.call), Columns(p.call.ds))
    else s.registered
  }

  // s' is s after the rest of the call at p.
  ghost predicate Wrote(s: State, p: Place, s': State, h: nat)
    requires Writing(p)
  {
    && s'.max == s.max && s'.initialized == s.initialized
    && s'.registered == Outcome(s, p) && Names(s'.registered, h, KeyOf(s, p.call))
    && s'.sent == s.sent + if WillSend(s.initialized, p) then [Sent(h, p.call, Row(p.call.ds, p.call.vl))] else []
  }

  // A thread left alone is never kept waiting.
  lemma AloneGoes(s: State, t: nat, r: Request)
    requires Inv(s) && Alone(s, t) && Writing(s.threads[t])
    ensures Step(s, t, r).Some? && Alone(Step(s, t, r).value, t)
  {
    var p := s.threads[t];
    assert HoldsSession(p) <==> s.sessionLock == Some(t);
    WritingMoves(s, p, r);
  }

  // The locks a call may take, and when.
  lemma WritingMoves(s: State, p: Place, r: Request)
    requires ListSound(s) && Knows(s, p) && Writing(p)
    ensures var c := NextMove(s, p, r).change;
            && (c.TakeSession? ==> !HoldsSession(p)) && (c.TakePoint? ==> !HoldsPoint(p, c.h))
            && !c.SetInitialized?
  {
  }

  // A step leaves what the call is going to register as it was ...
  lemma AloneStepFinds(s: State, t: nat, r: Request)
    requires Inv(s) && Alone(s, t) && Writing(s.threads[t]) && Step(s, t, r).Some?
    ensures var p, s' := s.threads[t], Step(s, t, r).value;
            var p' := s'.threads[t];
            && s'.max == s.max && s'.initialized == s.initialized
            && if p' == Idle then HasPoint(p) && s'.registered == s.registered
               else Writing(p') && p'.call == p.call && Outcome(s', p') == Outcome(s, p)
  {
    var p := s.threads[t];
    assert Knows(s, p);
    if p.Searching? && p.n > 0 {
      assert Names(s.registered, s.list[p.n - 1], s.registered[s.list[p.n - 1]].name);
    }
  }

  // ... and what it is going to send, until it sends it.
  lemma MoveSends(s: State, p: Place, r: Request)
    requires ListSound(s) && Knows(s, p) && Writing(p)
    ensures var p', c := NextMove(s, p, r).to, NextMove(s, p, r).change;
            && (if p' == Idle then !WillSend(s.initialized, p)
                else Writing(p') && (p.Injecting? <==> p'.Injected?) && (p.Injecting? ==> p'.h == p.h)
                     && WillSend(s.initialized, p) == (p.Injecting? || WillSend(s.initialized, p')))
            && (p.Injecting? ==> WillSend(s.initialized, p))
            && c.Send? == p.Injecting? && (c.Send? ==> c.sent == Sent(p.h, p.call, Row(p.call.ds, p.call.vl)))
  {
  }

  // What one step of the call does to what it has still to do.
  ghost predicate StepWrote(s: State, p: Place, s1: State, p1: Place)
    requires Writing(p) && Writing(p1)
  {
    && p1.call == p.call && s1.max == s.max && s1.initialized == s.initialized && Outcome(s1, p1) == Outcome(s, p)
    && (p.Injecting? <==> p1.Injected?) && (p.Injecting? ==> p1.h == p.h)
    && WillSend(s.initialized, p) == (p.Injecting? || WillSend(s.initialized, p1))
    && (p.Injecting? ==> WillSend(s.initialized, p))
    && s1.sent == s.sent + if p.Injecting? then [Sent(p.h, p.call, Row(p.call.ds, p.call.vl))] else []
  }

  lemma AloneStepWrites(s: State, t: nat, r: Request)
    requires Inv(s) && Alone(s, t) && Writing(s.threads[t]) && Step(s, t, r).Some?
    ensures var p, s' := s.threads[t], Step(s, t, r).value;
            var p' := s'.threads[t];
            if p' == Idle then HasPoint(p) && Wrote(s, p, s', p.h) else Writing(p') && StepWrote(s, p, s', p')
  {
    assert Knows(s, s.threads[t]);
    AloneStepFinds(s, t, r);
    MoveSends(s, s.threads[t], r);
  }

  lemma RunSnoc(s: State, turns: seq<Turn>, a: Turn)
    requires Inv(s)
    ensures Run(s, turns + [a]) == Scheduled(Run(s, turns), a)
  {
    var all := turns + [a];
    assert all[..|all| - 1] == turns && all[|all| - 1] == a;
  }

  lemma LastApart<T>(x: seq<T>, y: seq<T>)
    requires y != []
    ensures y == y[..|y| - 1] + [y[|y| - 1]] && x + y == x + y[..|y| - 1] + [y[|y| - 1]]
  {
  }

  lemma {:induction false} RunConcat(s: State, turns: seq<Turn>, more: seq<Turn>)
    requires Inv(s)
    ensures Run(s, turns + more) == Run(Run(s, turns), more)
  {
    if more == [] {
      assert turns + more == turns;
    } else {
      var front, a := more[..|more| - 1], more[|more| - 1];
      RunConcat(s, turns, front);
      LastApart(turns, more);
      RunSnoc(s, turns + front, a);
      RunSnoc(Run(s, turns), front, a);
    }
  }

  lemma RunCons(s: State, a: Turn, rest: seq<Turn>)
    requires Inv(s)
    ensures Run(s, [a] + rest) == Run(Scheduled(s, a), rest)
  {
    assert [] + [a] == [a];
    RunSnoc(s, [], a);
    RunConcat(s, [a], rest);
  }

  // A call that is left alone ends, and does what Session.Write does: its name is looked up and,
  // if there is a row to send, it is sent to the point of the name.
  lemma {:induction false} CallAlone(s: State, t: nat, r: Request) returns (turns: seq<Turn>, h: nat)
    requires Inv(s) && Alone(s, t) && Writing(s.threads[t])
    ensures var s' := Run(s, turns);
            Alone(s', t) && s'.threads[t] == Idle && Wrote(s, s.threads[t], s', h)
    decreases Phase(s.threads[t]), Ahead(s.threads[t])
  {
    var p, a := s.threads[t], Turn(t, r);
    AloneGoes(s, t, r);
    AloneStepWrites(s, t, r);
    StepKeepsInv(s, t, r);
    var s1 := Step(s, t, r).value;
    assert Scheduled(s, a) == s1;
    if s1.threads[t] == Idle {
      turns, h := [a], p.h;
      RunCons(s, a, []);
      assert [a] + [] == [a];
    } else {
      CallsEnd(s, t, r);
      var rest;
      rest, h := CallAlone(s1, t, r);
      turns := [a] + rest;
      RunCons(s, a, rest);
      assert Knows(s1, s1.threads[t]);
      SentOnce(s, s1, p, s1.threads[t], Run(s1, rest), h);
    }
  }

  lemma SentOnce(s: State, s1: State, p: Place, p1: Place, s': State, h: nat)
    requires Writing(p) && Writing(p1) && StepWrote(s, p, s1, p1) && Wrote(s1, p1, s', h)
    requires p.Injecting? ==> Names(s1.registered, p1.h, KeyOf(s1, p1.call)) && Distinct(s'.registered)
    ensures Wrote(s, p, s', h)
  {
  }

  // An idle thread takes on a call and is left alone with it.
  lemma WriteAlone(s: State, t: nat, c: Call) returns (turns: seq<Turn>, h: nat)
    requires Inv(s) && Alone(s, t) && s.threads[t] == Idle
    ensures var s' := Run(s, turns);
            && Alone(s', t) && s'.threads[t] == Idle && s'.max == s.max && s'.initialized == s.initialized
            && s'.registered == LookedUp(s.registered, KeyOf(s, c), Columns(c.ds))
            && Names(s'.registered, h, KeyOf(s, c))
            && s'.sent == s.sent
                          + if s.initialized && |c.vl.values| < 58 then [Sent(h, c, Row(c.ds, c.vl))] else []
  {
    var a := Turn(t, Write(c));
    assert Step(s, t, Write(c)).Some?;
    StepKeepsInv(s, t, Write(c));
    var s1 := Scheduled(s, a);
    var rest;
    rest, h := CallAlone(s1, t, Write(c));
    turns := [a] + rest;
    RunCons(s, a, rest);
  }

  // In oml_init with OML's answer, left alone.
  ghost predicate InitializingAlone(s: State, t: nat, answer: bool) {
    && t < |s.threads| && s.pointLocks == map[] && (s.sessionLock == None || s.sessionLock == Some(t))
    && match s.threads[t]
       case WantInit(ok) => ok == answer
       case Initializing(ok) => ok == answer
       case Initialized => s.initialized == answer
       case _ => false
  }

  lemma InitStep(s: State, t: nat, answer: bool, r: Request)
    requires Inv(s) && InitializingAlone(s, t, answer)
    ensures Step(s, t, r).Some?
    ensures var s' := Step(s, t, r).value;
            && s'.max == s.max && s'.registered == s.registered && s'.sent == s.sent
            && if s.threads[t].Initialized? then
                 Alone(s', t) && s'.threads[t] == Idle && s'.initialized == answer
               else InitializingAlone(s', t, answer)
  {
    assert HoldsSession(s.threads[t]) <==> s.sessionLock == Some(t);
  }

  lemma {:induction false} InitRest(s: State, t: nat, answer: bool, r: Request) returns (turns: seq<Turn>)
    requires Inv(s) && InitializingAlone(s, t, answer)
    ensures var s' := Run(s, turns);
            && Alone(s', t) && s'.threads[t] == Idle && s'.initialized == answer
            && s'.max == s.max && s'.registered == s.registered && s'.sent == s.sent
    decreases Phase(s.threads[t])
  {
    var a := Turn(t, r);
    InitStep(s, t, answer, r);
    StepKeepsInv(s, t, r);
    CallsEnd(s, t, r);
    var s1 := Step(s, t, r).value;
    assert Scheduled(s, a) == s1;
    var rest := [];
    if !s.threads[t].Initialized? {
      rest := InitRest(s1, t, answer, r);
    }
    turns := [a] + rest;
    RunCons(s, a, rest);
  }

  // A call of oml_init left alone does what Session.Init does.
  lemma InitAlone(s: State, t: nat, answer: bool) returns (turns: seq<Turn>)
    requires Inv(s) && t < |s.threads| && s.threads[t] == Idle && s.sessionLock == None && s.pointLocks == map[]
    ensures var s' := Run(s, turns);
            && Alone(s', t) && s'.threads[t] == Idle && s'.initialized == answer
            && s'.max == s.max && s'.registered == s.registered && s'.sent == s.sent
  {
    var r := Init(answer);
    var a := Turn(t, r);
    StepKeepsInv(s, t, r);
    var s1 := Scheduled(s, a);
    var rest := InitRest(s1, t, answer, r);
    turns := [a] + rest;
    RunCons(s, a, rest);
  }

  // A call from a run that left the thread alone.
  lemma WriteNext(s: State, before: seq<Turn>, t: nat, c: Call) returns (turns: seq<Turn>, h: nat)
    requires Inv(s) && Alone(Run(s, before), t) && Run(s, before).threads[t] == Idle
    requires Run(s, before).initialized && |c.vl.values| < MAX_VALUES - HEADER
    ensures var s1, s2 := Run(s, before), Run(s, turns);
            && Alone(s2, t) && s2.threads[t] == Idle && s2.max == s1.max && s2.initialized
            && s2.registered == LookedUp(s1.registered, KeyOf(s1, c), Columns(c.ds))
            && Names(s2.registered, h, KeyOf(s1, c))
            && s2.sent == s1.sent + [Sent(h, c, Row(c.ds, c.vl))]
  {
    var more;
    more, h := WriteAlone(Run(s, before), t, c);
    turns := before + more;
    RunConcat(s, before, more);
  }

  // Looked up twice, a name is registered once.
  lemma LookedUpTwice(p: seq<char>, cs: seq<Column>, cs': seq<Column>, g: nat, h: nat)
    requires Names(LookedUp([], p, cs), g, p) && Names(LookedUp(LookedUp([], p, cs), p, cs'), h, p)
    ensures LookedUp(LookedUp([], p, cs), p, cs') == LookedUp([], p, cs) == [Registration(p, cs)]
    ensures g == 0 && h == 0
  {
  }

  // For any two data sets whose names have one prefix there is a run, from the start, in which
  // both write to the point made for the first of them; the second row fits it exactly if the
  // second data set covers the first.
  lemma SharedPoint(max: nat, a: Call, b: Call) returns (turns: seq<Turn>)
    requires Prefix(a.ds.name, max) == Prefix(b.ds.name, max)
    requires |a.vl.values| < MAX_VALUES - HEADER && |b.vl.values| < MAX_VALUES - HEADER
    ensures var s := Run(Start(max, 1), turns);
            && s.registered == [RegistrationOf(max, a.ds)]
            && s.sent == [Sent(0, a, Row(a.ds, a.vl)), Sent(0, b, Row(b.ds, b.vl))]
            && (Fits(s.registered[0].columns, s.sent[1].values) <==> Covers(a.ds, b.ds))
  {
    var start := Start(max, 1);
    var g, h;
    turns := InitAlone(start, 0, true);
    var s1 := Run(start, turns);
    turns, g := WriteNext(start, turns, 0, a);
    var s2 := Run(start, turns);
    turns, h := WriteNext(start, turns, 0, b);
    SharedOutcome(s1, s2, Run(start, turns), a, b, g, h);
  }

  lemma SharedOutcome(s1: State, s2: State, s3: State, a: Call, b: Call, g: nat, h: nat)
    requires s1.registered == [] && s1.sent == [] && s1.max == s2.max && KeyOf(s1, a) == KeyOf(s2, b)
    requires |a.vl.values| < MAX_VALUES - HEADER && |b.vl.values| < MAX_VALUES - HEADER
    requires s2.registered == LookedUp([], KeyOf(s1, a), Columns(a.ds)) && Names(s2.registered, g, KeyOf(s1, a))
    requires s3.registered == LookedUp(s2.registered, KeyOf(s2, b), Columns(b.ds))
    requires Names(s3.registered, h, KeyOf(s2, b))
    requires s2.sent == [] + [Sent(g, a, Row(a.ds, a.vl))] && s3.sent == s2.sent + [Sent(h, b, Row(b.ds, b.vl))]
    ensures s3.registered == [RegistrationOf(s1.max, a.ds)]
    ensures s3.sent == [Sent(0, a, Row(a.ds, a.vl)), Sent(0, b, Row(b.ds, b.vl))]
    ensures Fits(s3.registered[0].columns, s3.sent[1].values) <==> Covers(a.ds, b.ds)
  {
    LookedUpTwice(KeyOf(s1, a), Columns(a.ds), Columns(b.ds), g, h);
    RowFits(a.ds, b.ds, b.vl);
  }
}
