// The sending loop of a stream, and what a receiver learns from the frames it sent.
module Streams {
  import opened Words
  import opened Packets
  import opened Generators
  import opened Udp
  import opened Wrappers
  import Clocks

  datatype Source = Cbr(cbr: CbrGenerator) | Expo(expo: ExpoGenerator)

  ghost function SourceObjects(s: Source): set<object> {
    match s
    case Cbr(g) => {g}
    case Expo(g) => {g}
  }

  // One turn of the loop, as the world answers it: the samples the generator may draw, what
  // the stream's clock reads, and whether sendto() succeeds.
  datatype Turn = Turn(draw: Draw, reading: real, sent: bool)

  // One packet on the wire: when it was due, how long the sender slept for it, its bytes.
  datatype Sending = Sending(due: real, slept: nat, datagram: seq<Byte>)

  // The n-th sending of a flow (counting from 1) carries the number n.
  ghost predicate NumberedRun(h: Host, flow: nat, first: nat, sent: seq<Sending>) {
    forall i :: 0 <= i < |sent| ==> IsV2Frame(h, flow, first + i, sent[i].datagram)
  }

  // What a source will do next, as a value.
  datatype Gen = GenCbr(size: int, interval: real, stamp: real) | GenExpo(size: int, rate: real, expo: Expo)

  ghost function View(s: Source): Gen
    reads SourceObjects(s)
  {
    match s
    case Cbr(g) => GenCbr(g.pktSize, g.pktInterval, g.lastPktStamp)
    case Expo(g) => GenExpo(g.pktSize, g.rate, g.View())
  }

  predicate Usable(g: Gen) {
    g.GenExpo? ==> g.rate != 0.0
  }

  function GenNext(g: Gen, draw: Draw): (r: Gen)
    requires Usable(g)
    ensures Usable(r) && r.size == g.size
  {
    match g
    case GenCbr(size, interval, stamp) => GenCbr(size, interval, stamp + interval)
    case GenExpo(size, rate, expo) => GenExpo(size, rate, ExpoNext(expo, 8.0 * size as real / rate, draw))
  }

  // The generator after n turns.
  function GenAt(g: Gen, turns: seq<Turn>, n: nat): (r: Gen)
    requires Usable(g) && n <= |turns|
    ensures Usable(r) && r.size == g.size
  {
    if n == 0 then g else GenNext(GenAt(g, turns, n - 1), turns[n - 1].draw)
  }

  function DueStamp(g: Gen): real {
    if g.GenCbr? then g.stamp else g.expo.last
  }

  // How long the loop sleeps for a packet due at the given stamp: the microseconds still to go,
  // cut to a whole number, and nothing for a stamp that is not positive or already past.
  function Slept(due: real, reading: real): (micros: nat)
    ensures if due > 0.0 && due > reading then
              1000000.0 * (due - reading) - 1.0 < micros as real <= 1000000.0 * (due - reading)
            else micros == 0
  {
    if due > 0.0 then Clocks.SleepMicros(due, reading) else 0
  }

  // A sending of the packet the generator has just made.
  predicate SendingFrom(g: Gen, turn: Turn, s: Sending) {
    turn.sent && s.due == DueStamp(g) && s.slept == Slept(s.due, turn.reading) && |s.datagram| == g.size
  }

  // The k-th sending of a run: packet k + 1 of the generator.
  predicate SendingOf(g: Gen, turns: seq<Turn>, k: nat, s: Sending)
    requires Usable(g) && k < |turns|
  {
    SendingFrom(GenAt(g, turns, k + 1), turns[k], s)
  }

  // The sendings so far are the first packets of the generator.
  ghost predicate ScheduledRun(g: Gen, turns: seq<Turn>, sent: seq<Sending>)
    requires Usable(g)
  {
    |sent| <= |turns| && forall k :: 0 <= k < |sent| ==> SendingOf(g, turns, k, sent[k])
  }

  // One sending more.
  lemma RunNext(h: Host, flow: nat, first: nat, g: Gen, turns: seq<Turn>, sent: seq<Sending>, s: Sending)
    requires Usable(g) && |sent| < |turns| && NumberedRun(h, flow, first, sent) && ScheduledRun(g, turns, sent)
    requires IsV2Frame(h, flow, first + |sent|, s.datagram)
    requires SendingOf(g, turns, |sent|, s)
    ensures NumberedRun(h, flow, first, sent + [s]) && ScheduledRun(g, turns, sent + [s])
  {
  }

  // What the loop slept before each sending.
  lemma SleepsOf(g: Gen, turns: seq<Turn>, sent: seq<Sending>)
    requires Usable(g) && ScheduledRun(g, turns, sent)
    ensures forall k :: 0 <= k < |sent| ==>
              if sent[k].due > 0.0 && sent[k].due > turns[k].reading then
                1000000.0 * (sent[k].due - turns[k].reading) - 1.0 < sent[k].slept as real
                <= 1000000.0 * (sent[k].due - turns[k].reading)
              else sent[k].slept == 0
  {
    forall k | 0 <= k < |sent|
      ensures sent[k].slept == Slept(sent[k].due, turns[k].reading)
    {
      assert SendingOf(g, turns, k, sent[k]);
    }
  }

  method NextFrom(source: Source, p: Packet, draw: Draw)
    requires p.Valid() && p !in SourceObjects(source) && Usable(View(source))
    modifies SourceObjects(source), p`size, p`length, p`payload, p`txTime
    ensures p.Valid() && (p.payload == old(p.payload) || fresh(p.payload))
    ensures View(source) == GenNext(old(View(source)), draw)
    ensures p.size == View(source).size && p.txTime == DueStamp(View(source))
  {
    match source
    case Cbr(g) => g.NextPacket(p);
    case Expo(g) => g.NextPacket(p, draw);
  }

  class Stream {
    const host: Host
    const streamId: nat
    var seqno: nat

    constructor (host: Host, id: nat)
      ensures this.host == host && streamId == id && seqno == 0
    {
      this.host := host;
      streamId := id;
      seqno := 0;
    }

    // The body of the loop; None stands for the exception of a failed send.
    method SendOne(source: Source, p: Packet, turn: Turn) returns (s: Option<Sending>)
      requires streamId < TWO_64 && p.Valid() && p.host == host
      requires {this, p} !! SourceObjects(source)
      requires Usable(View(source)) && View(source).size >= 0
      modifies this`seqno, SourceObjects(source), p, p.payload
      ensures p.Valid() && (p.payload == old(p.payload) || fresh(p.payload))
      ensures View(source) == GenNext(old(View(source)), turn.draw)
      ensures seqno == old(seqno) + 1 && s.Some? == turn.sent
      ensures s.Some? ==>
                IsV2Frame(host, streamId, seqno, s.value.datagram) && SendingFrom(View(source), turn, s.value)
      ensures s.Some? && s.value.due > 0.0 && s.value.due > turn.reading ==>
                1000000.0 * (s.value.due - turn.reading) - 1.0 < s.value.slept as real
                <= 1000000.0 * (s.value.due - turn.reading)
      ensures s.Some? && !(s.value.due > 0.0 && s.value.due > turn.reading) ==> s.value.slept == 0
    {
      p.Reset();
      NextFrom(source, p, turn.draw);
      if p.flowId == 0 {
        p.flowId := streamId;
      }
      if p.seqNum == 0 {
        seqno := seqno + 1;
        p.seqNum := seqno;
      }
      var slept := 0;
      if p.txTime > 0.0 {
        slept := Clocks.SleepMicros(p.txTime, turn.reading);
      }
      var datagram := SendPacket(p, turn.sent);
      FramePrefix(host, streamId, seqno, p.payload[..], p.size);
      s := if datagram == None then None else Some(Sending(p.txTime, slept, datagram.value));
    }

    // One turn of the loop after the sendings so far; not ok if its send fails.
    method SendNext(source: Source, p: Packet, turns: seq<Turn>, sent: seq<Sending>, ghost g: Gen, ghost first: nat)
      returns (ok: bool, more: seq<Sending>)
      requires streamId < TWO_64 && p.Valid() && p.host == host && {this, p} !! SourceObjects(source)
      requires Usable(g) && g.size >= 0 && |sent| < |turns| && seqno + 1 == first + |sent|
      requires View(source) == GenAt(g, turns, |sent|)
      requires NumberedRun(host, streamId, first, sent) && ScheduledRun(g, turns, sent)
      modifies this`seqno, SourceObjects(source), p, p.payload
      ensures p.Valid() && (p.payload == old(p.payload) || fresh(p.payload)) && seqno == old(seqno) + 1
      ensures View(source) == GenAt(g, turns, |sent| + 1)
      ensures ok == turns[|sent|].sent && |more| == |sent| + if ok then 1 else 0
      ensures NumberedRun(host, streamId, first, more) && ScheduledRun(g, turns, more)
    {
      var s := SendOne(source, p, turns[|sent|]);
      if s == None {
        return false, sent;
      }
      RunNext(host, streamId, first, g, turns, sent, s.value);
      return true, sent + [s.value];
    }

    // The loop runs while active_ is set: once per turn.
    method Run(source: Source, turns: seq<Turn>) returns (sent: seq<Sending>, thrown: bool)
      requires streamId < TWO_64 && this !in SourceObjects(source)
      requires Usable(View(source)) && View(source).size >= 0
      modifies this`seqno, SourceObjects(source)
      ensures |sent| <= |turns| && (thrown <==> |sent| < |turns|) && (thrown ==> !turns[|sent|].sent)
      ensures seqno == old(seqno) + |sent| + if thrown then 1 else 0
      ensures NumberedRun(host, streamId, old(seqno) + 1, sent)
      ensures ScheduledRun(old(View(source)), turns, sent)
      ensures forall k :: 0 <= k < |sent| ==>
                if sent[k].due > 0.0 && sent[k].due > turns[k].reading then
                  1000000.0 * (sent[k].due - turns[k].reading) - 1.0 < sent[k].slept as real
                  <= 1000000.0 * (sent[k].due - turns[k].reading)
                else sent[k].slept == 0
    {
      sent, thrown := [], false;
      ghost var g, first := View(source), seqno + 1;
      var p := new Packet(host, DEFAULT_PAYLOAD_SIZE);
      for i := 0 to |turns|
        invariant |sent| == i && seqno + 1 == first + i && !thrown
        invariant fresh(p) && fresh(p.payload) && p.Valid() && p.host == host
        invariant View(source) == GenAt(g, turns, i)
        invariant NumberedRun(host, streamId, first, sent) && ScheduledRun(g, turns, sent)
      {
        var ok;
        ok, sent := SendNext(source, p, turns, sent, g, first);
        if !ok {
          thrown := true;
          break;
        }
      }
      SleepsOf(g, turns, sent);
    }
  }

  // A constant-rate source is due every interval ...
  lemma {:induction false} CbrDue(g: Gen, turns: seq<Turn>, n: nat)
    requires g.GenCbr? && n <= |turns|
    ensures GenAt(g, turns, n) == GenCbr(g.size, g.interval, g.stamp + n as real * g.interval)
  {
    if n > 0 {
      CbrDue(g, turns, n - 1);
      Distribute(1.0, (n - 1) as real, g.interval);
    }
  }

  lemma CbrSendings(g: Gen, turns: seq<Turn>, sent: seq<Sending>, k: nat)
    requires g.GenCbr? && ScheduledRun(g, turns, sent) && k < |sent|
    ensures sent[k].due == g.stamp + (k + 1) as real * g.interval && |sent[k].datagram| == g.size
  {
    CbrDue(g, turns, k + 1);
    assert SendingOf(g, turns, k, sent[k]);
  }

  function Draws(turns: seq<Turn>): (ds: seq<Draw>)
    ensures |ds| == |turns| && forall i :: 0 <= i < |ds| ==> ds[i] == turns[i].draw
  {
    seq(|turns|, i requires 0 <= i < |turns| => turns[i].draw)
  }

  // ... and a bursty one follows the run whose conservation laws are proved for the generator.
  lemma {:induction false} ExpoDue(g: Gen, turns: seq<Turn>, n: nat)
    requires g.GenExpo? && g.rate != 0.0 && n <= |turns|
    ensures GenAt(g, turns, n)
            == GenExpo(g.size, g.rate, ExpoRun(g.expo, 8.0 * g.size as real / g.rate, Draws(turns[..n])))
  {
    if n > 0 {
      ExpoDue(g, turns, n - 1);
      assert Draws(turns[..n]) == Draws(turns[..n - 1]) + [turns[n - 1].draw];
      ExpoRunSnoc(g.expo, 8.0 * g.size as real / g.rate, Draws(turns[..n - 1]), turns[n - 1].draw);
    }
  }

  // Its k-th packet is due after all the idle times drawn so far, the interval the generator
  // started with, and k packet times.
  lemma ExpoSendings(g: Gen, turns: seq<Turn>, sent: seq<Sending>, k: nat, step: real)
    requires g.GenExpo? && g.rate != 0.0 && step == 8.0 * g.size as real / g.rate
    requires ScheduledRun(g, turns, sent) && k < |sent|
    ensures sent[k].due == g.expo.last + SumIdles(Drawn(g.expo, step, Draws(turns[..k + 1])))
                           + g.expo.interval + k as real * step
    ensures |sent[k].datagram| == g.size
  {
    ExpoStamp(g, turns, sent, k, step);
    StampAfter(g.expo, step, Draws(turns[..k + 1]), k);
  }

  lemma ExpoStamp(g: Gen, turns: seq<Turn>, sent: seq<Sending>, k: nat, step: real)
    requires g.GenExpo? && g.rate != 0.0 && step == 8.0 * g.size as real / g.rate
    requires ScheduledRun(g, turns, sent) && k < |sent|
    ensures sent[k].due == ExpoRun(g.expo, step, Draws(turns[..k + 1])).last && |sent[k].datagram| == g.size
  {
    ExpoDue(g, turns, k + 1);
    assert SendingOf(g, turns, k, sent[k]);
  }

  lemma {:induction false} ExpoRunSnoc(s: Expo, step: real, draws: seq<Draw>, d: Draw)
    ensures ExpoRun(s, step, draws + [d]) == ExpoNext(ExpoRun(s, step, draws), step, d)
    decreases |draws|
  {
    if draws != [] {
      assert (draws + [d])[1..] == draws[1..] + [d];
      ExpoRunSnoc(ExpoNext(s, step, draws[0]), step, draws[1..], d);
    }
  }

  lemma FramePrefix(h: Host, flow: nat, num: nat, payload: seq<Byte>, size: nat)
    requires size <= |payload| && IsV2Frame(h, flow, num, payload)
    ensures IsV2Frame(h, flow, num, payload[..size])
  {
  }

  // ---------- End to end ----------

  // The network may lose, reorder and duplicate what was sent, but invents nothing.
  ghost predicate Delivered(sent: seq<Sending>, arrived: seq<seq<Byte>>) {
    forall a :: a in arrived ==> exists i :: 0 <= i < |sent| && sent[i].datagram == a
  }

  // Every arrival is some sending; cut to the receive buffer it decodes to the sender's flow
  // id if 17 bytes of it remain, and to that sending's number iff the number is readable.
  lemma EndToEnd(sender: Host, receiver: Host, flow: nat, sent: seq<Sending>, arrived: seq<seq<Byte>>, room: nat,
                 k: nat) returns (i: nat)
    requires sender.bigEndian == receiver.bigEndian && flow < TWO_64
    requires NumberedRun(sender, flow, 1, sent) && |sent| < TWO_64 && Delivered(sent, arrived) && k < |arrived|
    ensures i < |sent| && sent[i].datagram == arrived[k]
    ensures var got := DecodeDatagram(receiver, UdpInPort.Cut(arrived[k], room));
            var n := |UdpInPort.Cut(arrived[k], room)|;
            && (got.0 == flow <==> n >= 17 || flow == 0)
            && (n >= 9 ==> (got.1 == i + 1 <==> NumberReadable(sender, receiver, i + 1)))
            && (n >= 9 && i < 32767 && !sender.bigEndian ==> got.1 == i + 1)
            && (n >= 9 && i < 127 ==> got.1 == i + 1)
  {
    assert arrived[k] in arrived;
    i :| 0 <= i < |sent| && sent[i].datagram == arrived[k];
    var d := UdpInPort.Cut(arrived[k], room);
    FramePrefix(sender, flow, 1 + i, arrived[k], |d|);
    assert d == arrived[k][..|d|];
    V2FrameDecodes(sender, receiver, flow, i + 1, d);
    FirstNumbersReadable(sender, receiver, i + 1);
  }
}
