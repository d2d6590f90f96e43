// The reading loop of the Watts Up? program: bad records are retried, then the meter is reset,
// then reading is given up.
module WattsUpRead {
  import opened CStrings
  import opened WattsUpText
  import opened WattsUp

  const WU_MAX_RETRY := 2

  // What select() and read() answer.
  datatype Serial = Timeout | Error(code: int) | Bytes(data: seq<char>)

  // What wu_read makes of an answer.
  function Record(s: Serial): Parsed {
    if s.Bytes? then ParseText(CStr(s.data)) else Bad
  }

  // The reader's assumption about the device: an answer leaves room for the terminator, and a
  // packet has room for its fields.
  predicate Fits(s: Serial) {
    s.Bytes? ==> |s.data| < WU_STRLEN && HasRoom(CStr(s.data))
  }

  type Answer = s: Serial | Fits(s) witness Timeout

  ghost predicate Holds(p: Packet, r: Parsed)
    reads p, p.buf, p.field
  {
    && r.Good? && p.cmd == r.cmd && p.subCmd == r.sub && p.count == r.count == |r.fields|
    && FieldsDone(p.buf[..], p.field[..], r.fields, p.count, p.buf.Length)
  }

  // wu_read: true when the record is good; the packet then holds it.
  method Read(p: Packet, answer: Answer) returns (ok: bool)
    requires p.Valid()
    modifies p, p.buf, p.field
    ensures ok == Record(answer).Good?
    ensures ok ==> Holds(p, Record(answer))
    ensures ok ==> answer.Bytes? && Record(answer) == ParseText(CStr(answer.data))
    ensures !ok ==> answer.Bytes? ==> ParseText(CStr(answer.data)) == Bad
  {
    if !answer.Bytes? {
      return false;
    }
    forall i | 0 <= i < |answer.data| {
      p.buf[i] := answer.data[i];
    }
    p.len := |answer.data|;
    assert p.buf[..p.len] == answer.data;
    ok := p.Parse();
  }

  // What the packet holds, read field by field; a bad record if the read failed.
  method Take(p: Packet, ok: bool, ghost r: Parsed) returns (taken: Parsed)
    requires p.Valid() && (if ok then Holds(p, r) && p.count <= WU_NUM_FIELDS else r == Bad)
    ensures taken == r
  {
    if !ok {
      return Bad;
    }
    var fields: seq<seq<char>> := [];
    var i := 0;
    while i < p.count
      invariant 0 <= i <= p.count && fields == r.fields[..i]
    {
      var f := p.field[i];
      StringAtIsCStr(p.buf[..], f, r.fields[i]);
      assert p.buf[f..] == p.buf[..][f..];
      fields := fields + [CStr(p.buf[f..])];
      i := i + 1;
    }
    assert fields == r.fields;
    return Good(p.cmd, p.subCmd, p.count, fields);
  }

  // ---------- What the loop should do, given the records read so far ----------

  datatype History = Start | After(before: History, last: Parsed)

  // One line of the log: a record reported under a running number, or a reset.
  datatype Event = Report(number: nat, record: Parsed) | Reset

  function Length(h: History): nat {
    if h.Start? then 0 else Length(h.before) + 1
  }

  // How many bad records stand at the end.
  function Streak(h: History): nat {
    if h.Start? || h.last.Good? then 0 else Streak(h.before) + 1
  }

  // The last record made the second bad one in a row.
  predicate EndsInReset(h: History) {
    Streak(h) == WU_MAX_RETRY
  }

  // The good records, in order.
  function Goods(h: History): seq<Parsed> {
    if h.Start? then [] else if h.last.Good? then Goods(h.before) + [h.last] else Goods(h.before)
  }

  // The running number of the next report: it starts again at every reset.
  function Number(h: History): nat {
    if h.Start? || EndsInReset(h) then 0
    else if h.last.Good? then Number(h.before) + 1 else Number(h.before)
  }

  // The log: each good record reported, and the resets between.
  function Log(h: History): seq<Event> {
    if h.Start? then []
    else if h.last.Good? then Log(h.before) + [Report(Number(h.before), h.last)]
    else if EndsInReset(h) then Log(h.before) + [Reset]
    else Log(h.before)
  }

  // Before a read: not stopped, not given up, records still wanted.
  ghost predicate Going(h: History, wuCount: int, stop: nat -> bool) {
    !stop(Length(h)) && Streak(h) <= WU_MAX_RETRY && (wuCount > 0 ==> |Goods(h)| < wuCount)
  }

  // It was so before every read.
  ghost predicate WentOn(h: History, wuCount: int, stop: nat -> bool) {
    h.After? ==> Going(h.before, wuCount, stop) && WentOn(h.before, wuCount, stop)
  }

  // The first n records of the device.
  ghost function Received(input: nat -> Answer, n: nat): History {
    if n == 0 then Start else After(Received(input, n - 1), Record(input(n - 1)))
  }

  // ---------- The loop ----------

  // input(k) answers the k-th read of the loop and stop(k) is what the loop finds in stop_loop
  // before it. Without a record limit the loop ends only if somebody stops it.
  method ReadData(p: Packet, wuCount: int, input: nat -> Answer, stop: nat -> bool, ghost stopBy: nat)
    returns (log: seq<Event>, gaveUp: bool, ghost h: History)
    requires p.Valid()
    requires wuCount <= 0 ==> stop(stopBy)
    modifies p, p.buf, p.field
    ensures h == Received(input, Length(h))
    ensures log == Log(h)
    // It goes on through every earlier read ...
    ensures WentOn(h, wuCount, stop)
    // ... gives up exactly on a third bad record in a row ...
    ensures gaveUp <==> Streak(h) == 3
    // ... and otherwise ends because it was stopped or has enough records.
    ensures gaveUp || stop(Length(h)) || (wuCount > 0 && |Goods(h)| == wuCount)
    ensures wuCount > 0 ==> Length(h) <= 3 * wuCount
  {
    var retry: nat, i: nat, numRead: nat, tries: nat := 0, 0, 0, 0;
    log, gaveUp, h := [], false, Start;
    while !stop(tries)
      invariant SoFar(h, tries, wuCount, input, stop, stopBy) && !gaveUp
      invariant Matches(h, wuCount, log, retry, i, numRead) && retry <= WU_MAX_RETRY
      invariant wuCount > 0 ==> i < wuCount && tries <= 3 * i + retry
      decreases if wuCount > 0 then 3 * (wuCount - i) - retry else stopBy - tries
    {
      var ok := Read(p, input(tries));
      var r := Take(p, ok, Record(input(tries)));
      OneMore(h, tries, wuCount, input, stop, stopBy);
      var done;
      log, retry, i, numRead, done := Handle(log, retry, i, numRead, wuCount, r, h);
      h := After(h, r);
      tries := tries + 1;
      if done {
        gaveUp := retry > WU_MAX_RETRY;
        break;
      }
    }
  }

  // The reads so far, none of them too many.
  ghost predicate SoFar(h: History, tries: nat, wuCount: int, input: nat -> Answer, stop: nat -> bool, stopBy: nat) {
    && tries == Length(h) && h == Received(input, tries) && WentOn(h, wuCount, stop)
    && (wuCount <= 0 ==> tries <= stopBy && stop(stopBy))
  }

  lemma OneMore(h: History, tries: nat, wuCount: int, input: nat -> Answer, stop: nat -> bool, stopBy: nat)
    requires SoFar(h, tries, wuCount, input, stop, stopBy) && Going(h, wuCount, stop)
    ensures SoFar(After(h, Record(input(tries))), tries + 1, wuCount, input, stop, stopBy)
  {
    if wuCount <= 0 {
      assert tries != stopBy;
    }
  }

  // The variables of the loop, after the records h.
  ghost predicate Matches(h: History, wuCount: int, log: seq<Event>, retry: nat, i: nat, numRead: nat) {
    && log == Log(h) && retry == Streak(h) && numRead == Number(h)
    && i == if wuCount != 0 then |Goods(h)| else 0
  }

  // The body of the loop behind the read; done stands for its breaks.
  method Handle(log: seq<Event>, retry: nat, i: nat, numRead: nat, wuCount: int, r: Parsed, ghost h: History)
    returns (log': seq<Event>, retry': nat, i': nat, numRead': nat, done: bool)
    requires Matches(h, wuCount, log, retry, i, numRead) && retry <= WU_MAX_RETRY
    ensures Matches(After(h, r), wuCount, log', retry', i', numRead')
    ensures if r.Good? then retry' == 0 && (wuCount != 0 ==> i' == i + 1) else retry' == retry + 1 && i' == i
    ensures done <==> retry' > WU_MAX_RETRY || (r.Good? && wuCount != 0 && i' == wuCount)
  {
    log', retry', i', numRead', done := log, retry, i, numRead, false;
    if !r.Good? {
      retry' := retry' + 1;
      if retry' < WU_MAX_RETRY {
        return;
      } else if retry' == WU_MAX_RETRY {
        log' := log' + [Reset];
        numRead' := 0;
        return;
      }
      done := true;
      return;
    } else if retry' != 0 {
      retry' := 0;
    }
    log' := log' + [Report(numRead', r)];
    numRead' := numRead' + 1;
    if wuCount != 0 {
      i' := i' + 1;
      if i' == wuCount {
        done := true;
      }
    }
  }

  // ---------- What the log means ----------

  // The records reported, without the resets.
  function Reported(log: seq<Event>): seq<Parsed> {
    if log == [] then []
    else Reported(log[..|log| - 1])
         + if log[|log| - 1].Report? then [log[|log| - 1].record] else []
  }

  lemma ReportedSnoc(log: seq<Event>, e: Event)
    ensures Reported(log + [e]) == Reported(log) + if e.Report? then [e.record] else []
  {
    assert (log + [e])[..|log|] == log;
  }

  // Each good record is reported once and in order.
  lemma {:induction false} ReportsAreTheGoodRecords(h: History)
    ensures Reported(Log(h)) == Goods(h)
  {
    if h.After? {
      ReportsAreTheGoodRecords(h.before);
      ReportedSnoc(Log(h.before), Report(Number(h.before), h.last));
      ReportedSnoc(Log(h.before), Reset);
      assert Goods(h.before) + [] == Goods(h.before);
    }
  }

  // A good record adds its report to the log, under the running number, and nothing else.
  lemma GoodRecordIsReported(h: History, r: Parsed)
    requires r.Good?
    ensures Log(After(h, r)) == Log(h) + [Report(NumberAfter(Log(h)), r)]
    ensures Streak(After(h, r)) == 0 && Goods(After(h, r)) == Goods(h) + [r]
    ensures Log(Start) == [] && Goods(Start) == []
  {
    NumbersCount(h);
  }

  // The records are what the device answered, in order.
  lemma ReceivedMeaning(input: nat -> Answer, n: nat)
    ensures Received(input, 0) == Start
    ensures Received(input, n + 1) == After(Received(input, n),
                                            match input(n)
                                            case Bytes(data) => ParseText(CStr(data))
                                            case Timeout => Bad
                                            case Error(_) => Bad)
  {
  }

  // The number that follows the last event of a log.
  function NumberAfter(log: seq<Event>): nat {
    if log == [] || log[|log| - 1].Reset? then 0 else log[|log| - 1].number + 1
  }

  // The running numbers count from 0 at the start and after every reset.
  lemma {:induction false} NumbersCount(h: History)
    ensures Number(h) == NumberAfter(Log(h))
    ensures forall i :: 0 <= i < |Log(h)| && Log(h)[i].Report? ==> Log(h)[i].number == NumberAfter(Log(h)[..i])
  {
    if h.After? {
      NumbersCount(h.before);
      var log, before := Log(h), Log(h.before);
      forall i | 0 <= i < |log| && log[i].Report?
        ensures log[i].number == NumberAfter(log[..i])
      {
        if i < |before| {
          assert log[..i] == before[..i];
        } else {
          assert log[..i] == before;
        }
      }
    }
  }

  // n more bad records.
  function Bads(h: History, n: nat): History {
    if n == 0 then h else After(Bads(h, n - 1), Bad)
  }

  lemma {:induction false} StreakOfBads(h: History, n: nat)
    requires h.Start? || h.last.Good?
    ensures Streak(Bads(h, n)) == n && Goods(Bads(h, n)) == Goods(h)
  {
    if n > 0 {
      StreakOfBads(h, n - 1);
    }
  }

  lemma LogAfterBad(h: History)
    ensures Log(After(h, Bad)) == Log(h) + if Streak(h) == 1 then [Reset] else []
  {
    assert Log(h) + [] == Log(h);
  }

  // A maximal run of bad records adds one reset to the log if it is at least two long, and
  // nothing otherwise.
  lemma {:induction false} OneResetPerStreak(h: History, n: nat)
    requires h.Start? || h.last.Good?
    ensures Log(Bads(h, n)) == Log(h) + if n >= 2 then [Reset] else []
  {
    if n > 0 {
      OneResetPerStreak(h, n - 1);
      StreakOfBads(h, n - 1);
      LogAfterBad(Bads(h, n - 1));
    } else {
      assert Log(h) + [] == Log(h);
    }
  }
}
