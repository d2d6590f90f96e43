// The traffic generators: when the next packet is due and how long it is.
module Generators {
  import opened Packets

  // ---------- Constant bit rate ----------

  class CbrGenerator {
    var pktSize: int
    var pktInterval: real
    var pktRate: real
    var lastPktStamp: real

    constructor ()
      ensures pktSize == 512 && pktInterval == 1.0 && pktRate == 4096.0
    {
      pktSize := 512;
      pktInterval := 1.0;
      pktRate := 8.0 * 512.0;
    }

    // False stands for the exception on a zero rate.
    method Update() returns (ok: bool)
      modifies this`pktInterval
      ensures ok == (pktRate != 0.0)
      ensures ok ==> pktInterval * pktRate == 8.0 * pktSize as real
      ensures !ok ==> pktInterval == old(pktInterval)
    {
      if pktRate == 0.0 {
        return false;
      }
      pktInterval := 8.0 * pktSize as real / pktRate;
      return true;
    }

    method Init() returns (ok: bool)
      modifies this`pktInterval, this`lastPktStamp
      ensures lastPktStamp == 0.0 && ok == (pktRate != 0.0)
      ensures ok ==> pktInterval * pktRate == 8.0 * pktSize as real
    {
      lastPktStamp := 0.0;
      ok := Update();
    }

    method NextPacket(p: Packet)
      requires p.Valid()
      modifies this`lastPktStamp, p`size, p`length, p`payload, p`txTime
      ensures p.Valid() && p.size == pktSize
      ensures p.payload == old(p.payload) || fresh(p.payload)
      ensures lastPktStamp == old(lastPktStamp) + pktInterval && p.txTime == lastPktStamp
    {
      p.SetPayloadSize(pktSize);
      lastPktStamp := lastPktStamp + pktInterval;
      p.txTime := lastPktStamp;
    }
  }

  // ---------- Exponential bursts ----------

  // The samples the two random variables would give if asked now.
  datatype Draw = Draw(burst: Sample, idle: real)

  type Sample = r: real | r >= 0.0

  datatype Expo = Expo(rem: nat, interval: real, last: real)

  // The number of packets in a burst: the sample rounded, but at least one.
  function BurstLength(sample: Sample): (n: nat)
    ensures n == 1 || sample - 0.5 < n as real <= sample + 0.5
    ensures n == 1 <==> sample < 1.5
  {
    var r := (sample + 0.5).Floor;
    if r == 0 then 1 else r
  }

  // One call of nextPacket at a fixed packet size and rate.
  function ExpoNext(s: Expo, step: real, d: Draw): Expo
  {
    if s.rem == 0 then Expo(BurstLength(d.burst) - 1, step, s.last + d.idle + s.interval)
    else Expo(s.rem - 1, step, s.last + s.interval)
  }

  class ExpoGenerator {
    var pktSize: int
    var rate: real
    var rem: nat
    var pktInterval: real
    var lastPktStamp: real

    constructor (pktSize: int, rate: real, firstInterval: real)
      ensures this.pktSize == pktSize && this.rate == rate && rem == 0 && pktInterval == firstInterval
    {
      this.pktSize := pktSize;
      this.rate := rate;
      rem := 0;
      pktInterval := firstInterval;
    }

    method Init()
      modifies this`lastPktStamp
      ensures lastPktStamp == 0.0
    {
      lastPktStamp := 0.0;
    }

    ghost function View(): Expo
      reads this
    {
      Expo(rem, pktInterval, lastPktStamp)
    }

    method NextPacket(p: Packet, d: Draw)
      requires p.Valid() && rate != 0.0
      modifies this`rem, this`pktInterval, this`lastPktStamp, p`size, p`length, p`payload, p`txTime
      ensures p.Valid() && p.size == pktSize
      ensures p.payload == old(p.payload) || fresh(p.payload)
      ensures View() == ExpoNext(old(View()), 8.0 * pktSize as real / rate, d) && p.txTime == lastPktStamp
    {
      var t := pktInterval;
      p.SetPayloadSize(pktSize);
      pktInterval := 8.0 * pktSize as real / rate;
      if rem == 0 {
        rem := (d.burst + 0.5).Floor;
        if rem == 0 {
          rem := 1;
        }
        lastPktStamp := lastPktStamp + d.idle;
      }
      rem := rem - 1;
      lastPktStamp := lastPktStamp + t;
      p.txTime := lastPktStamp;
    }
  }

  function ExpoRun(s: Expo, step: real, draws: seq<Draw>): Expo
    decreases |draws|
  {
    if draws == [] then s else ExpoRun(ExpoNext(s, step, draws[0]), step, draws[1..])
  }

  // The samples that a run really asks for: one of each when a burst begins.
  function Drawn(s: Expo, step: real, draws: seq<Draw>): seq<Draw>
    decreases |draws|
  {
    if draws == [] then []
    else (if s.rem == 0 then [draws[0]] else []) + Drawn(ExpoNext(s, step, draws[0]), step, draws[1..])
  }

  function SumBursts(draws: seq<Draw>): nat
  {
    if draws == [] then 0 else BurstLength(draws[0].burst) + SumBursts(draws[1..])
  }

  function SumIdles(draws: seq<Draw>): real {
    if draws == [] then 0.0 else draws[0].idle + SumIdles(draws[1..])
  }

  // Packets sent and packets still owed make up the bursts drawn.
  lemma {:induction false} BurstsConserved(s: Expo, step: real, draws: seq<Draw>)
    ensures |draws| + ExpoRun(s, step, draws).rem == s.rem + SumBursts(Drawn(s, step, draws))
    decreases |draws|
  {
    if draws != [] {
      BurstsConserved(ExpoNext(s, step, draws[0]), step, draws[1..]);
      DrawnStep(s, step, draws);
    }
  }

  // n packet times, added up.
  function Steps(n: nat, step: real): real {
    if n == 0 then 0.0 else step + Steps(n - 1, step)
  }

  lemma {:induction false} StepsProduct(n: nat, step: real)
    ensures Steps(n, step) == n as real * step
  {
    if n > 0 {
      StepsProduct(n - 1, step);
      Distribute(1.0, (n - 1) as real, step);
    }
  }

  lemma Distribute(a: real, b: real, c: real)
    ensures (a + b) * c == a * c + b * c
  {
  }

  // The last stamp is the sum of the idle times drawn, the interval at the start and n - 1
  // packet times.
  lemma {:induction false} StampsConserved(s: Expo, step: real, draws: seq<Draw>)
    ensures ExpoRun(s, step, draws).last
            == s.last + SumIdles(Drawn(s, step, draws))
               + if draws == [] then 0.0 else s.interval + Steps(|draws| - 1, step)
    decreases |draws|
  {
    if draws != [] {
      StampsConserved(ExpoNext(s, step, draws[0]), step, draws[1..]);
      DrawnStep(s, step, draws);
    }
  }

  lemma StampAfter(s: Expo, step: real, draws: seq<Draw>, n: nat)
    requires |draws| == n + 1
    ensures ExpoRun(s, step, draws).last
            == s.last + SumIdles(Drawn(s, step, draws)) + s.interval + n as real * step
  {
    StampsConserved(s, step, draws);
    StepsProduct(n, step);
  }

  // From a fresh generator, a packet and n further ones at fixed parameters.
  lemma ExpoConservation(firstInterval: real, step: real, draws: seq<Draw>, n: nat)
    requires |draws| == n + 1
    ensures var s := Expo(0, firstInterval, 0.0);
            var end := ExpoRun(s, step, draws);
            var drawn := Drawn(s, step, draws);
            && |draws| + end.rem == SumBursts(drawn)
            && end.last == SumIdles(drawn) + firstInterval + n as real * step
  {
    FreshConservation(firstInterval, step, draws);
    StepsProduct(n, step);
  }

  lemma FreshConservation(firstInterval: real, step: real, draws: seq<Draw>)
    requires draws != []
    ensures var s := Expo(0, firstInterval, 0.0);
            var end := ExpoRun(s, step, draws);
            var drawn := Drawn(s, step, draws);
            && |draws| + end.rem == SumBursts(drawn)
            && end.last == SumIdles(drawn) + firstInterval + Steps(|draws| - 1, step)
  {
    var s := Expo(0, firstInterval, 0.0);
    BurstsConserved(s, step, draws);
    StampsConserved(s, step, draws);
  }

  lemma DrawnStep(s: Expo, step: real, draws: seq<Draw>)
    requires draws != []
    ensures var drawn := Drawn(s, step, draws);
            var rest := Drawn(ExpoNext(s, step, draws[0]), step, draws[1..]);
            if s.rem == 0 then
              SumBursts(drawn) == BurstLength(draws[0].burst) + SumBursts(rest)
              && SumIdles(drawn) == draws[0].idle + SumIdles(rest)
            else SumBursts(drawn) == SumBursts(rest) && SumIdles(drawn) == SumIdles(rest)
  {
    var rest := Drawn(ExpoNext(s, step, draws[0]), step, draws[1..]);
    assert ([draws[0]] + rest)[1..] == rest;
    assert [] + rest == rest;
  }

  // Bursts are never cut: a new one is drawn exactly when the last is used up.
  lemma {:induction false} ExpoOwedIsPartOfLastBurst(s: Expo, step: real, draws: seq<Draw>)
    requires s.rem == 0 && draws != []
    ensures Drawn(s, step, draws) != []
    ensures ExpoRun(s, step, draws).rem < BurstLength(Last(Drawn(s, step, draws)).burst)
    decreases |draws|
  {
    OwedBound(ExpoNext(s, step, draws[0]), step, draws[1..], draws[0]);
    var rest := Drawn(ExpoNext(s, step, draws[0]), step, draws[1..]);
    assert Drawn(s, step, draws) == [draws[0]] + rest;
  }

  function Last(ds: seq<Draw>): Draw
    requires ds != []
  {
    ds[|ds| - 1]
  }

  lemma {:induction false} OwedBound(s: Expo, step: real, draws: seq<Draw>, current: Draw)
    requires s.rem < BurstLength(current.burst)
    ensures ExpoRun(s, step, draws).rem < BurstLength(Last([current] + Drawn(s, step, draws)).burst)
    decreases |draws|
  {
    if draws != [] {
      var d := draws[0];
      OwedBound(ExpoNext(s, step, d), step, draws[1..], if s.rem == 0 then d else current);
    }
  }
}
