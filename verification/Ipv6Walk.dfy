// The walk of the trace program over IPv6 extension headers: a loop, with recursion into an inner
// IPv6 header. The image is the captured bytes, and its end stops the walk.
module Ipv6Walk {
  import opened Words

  const IPV6 := 41
  const ROUTING := 43
  const NO_NEXT := 59
  const DSTOPTS := 60
  const MOBILITY := 135

  // The extension headers the walk knows how to pass.
  predicate IsExtension(next: Byte) {
    next == ROUTING || next == DSTOPTS || next == MOBILITY
  }

  // What the walk runs on. first is how far it moves off an IPv6 header. narrow says that a
  // header's length is kept in eight bits, as the program does; without it the walk is the one of
  // section 4 of RFC 2460.
  datatype Capture = Capture(image: seq<Byte>, first: nat, narrow: bool)

  type Walk = w: Capture | 0 < w.first < 256 witness Capture([], 8, true)

  // The loop's variables: the header reached, its length, the type of the header behind it.
  datatype Cursor = Cursor(hdr: nat, len: nat, next: Byte)

  datatype Outcome = Stop | Go(to: Cursor)

  // What the walk reports on its way.
  datatype Sighting = Inner(at: nat) | Mobility(at: nat, kind: Byte)

  function HeaderLength(w: Walk, length: Byte): nat {
    var exact := length as int * 8 + 8;
    if w.narrow then exact % 256 else exact
  }

  // The last byte the walk reads of a header.
  function LastRead(next: Byte): nat {
    if next == IPV6 then 6 else if next == MOBILITY then 2 else 1
  }

  predicate InImage(w: Walk, c: Cursor) {
    c.hdr + c.len + LastRead(c.next) < |w.image|
  }

  // One turn of the loop; into an inner IPv6 header the walk starts afresh.
  function Step(w: Walk, c: Cursor): Outcome {
    var h := c.hdr + c.len;
    if c.next == NO_NEXT || !InImage(w, c) then Stop
    else if c.next == IPV6 then Go(Entry(w, h))
    else if IsExtension(c.next) then Go(Cursor(h, HeaderLength(w, w.image[h + 1]), w.image[h]))
    else Stop
  }

  function Entry(w: Walk, ip6: nat): Cursor
    requires ip6 + 6 < |w.image|
  {
    Cursor(ip6, w.first, w.image[ip6 + 6])
  }

  function Sight(w: Walk, c: Cursor): seq<Sighting> {
    var h := c.hdr + c.len;
    if !InImage(w, c) then []
    else if c.next == IPV6 then [Inner(h)]
    else if c.next == MOBILITY then [Mobility(h, w.image[h + 2])]
    else []
  }

  // After n turns.
  function After(w: Walk, c: Cursor, n: nat): Outcome
    decreases n
  {
    if n == 0 then Go(c)
    else
      match Step(w, c)
      case Stop => Stop
      case Go(to) => After(w, to, n - 1)
  }

  ghost predicate Halts(w: Walk, c: Cursor) {
    exists n: nat :: After(w, c, n).Stop?
  }

  // The next turn passes an extension header.
  predicate Passing(w: Walk, c: Cursor) {
    IsExtension(c.next) && InImage(w, c)
  }

  // It passes it with length zero, and the turn after that would pass it again.
  predicate Stuck(w: Walk, c: Cursor) {
    var h := c.hdr + c.len;
    w.narrow && Passing(w, c) && w.image[h + 1] % 32 == 31 && Passing(w, Cursor(h, 0, w.image[h]))
  }

  ghost predicate NeverStuck(w: Walk, c: Cursor) {
    forall n: nat :: After(w, c, n).Go? ==> !Stuck(w, After(w, c, n).to)
  }

  // A turn: it stops at the end of the image, at "no next header" (59) and at any header it does
  // not know; it starts afresh at an inner IPv6 header (41); and it passes a routing header (43),
  // destination options (60) and a mobility header (135) by their length.
  lemma StepMeaning(w: Walk, c: Cursor)
    ensures var h := c.hdr + c.len;
            Step(w, c) ==
            if c.next == 41 then (if h + 6 < |w.image| then Go(Cursor(h, w.first, w.image[h + 6])) else Stop)
            else if c.next != 43 && c.next != 60 && c.next != 135 then Stop
            else if h + (if c.next == 135 then 2 else 1) >= |w.image| then Stop
            else
              var exact := 8 * (w.image[h + 1] as int + 1);
              Go(Cursor(h, if w.narrow then exact % 256 else exact, w.image[h]))
  {
  }

  // ---------- When the walk ends ----------

  // The bytes ahead.
  function Ahead(w: Walk, c: Cursor): nat {
    if c.hdr + c.len < |w.image| then |w.image| - (c.hdr + c.len) else 0
  }

  lemma NoLength(length: Byte)
    ensures (length as int * 8 + 8) % 256 == 0 <==> length % 32 == 31
  {
  }

  // A turn that does not stick leaves fewer bytes ahead, or none to pass in the next one.
  lemma Progress(w: Walk, c: Cursor)
    requires Step(w, c).Go? && !Stuck(w, c)
    ensures var to := Step(w, c).to;
            Ahead(w, to) < Ahead(w, c) || (Ahead(w, to) == Ahead(w, c) && Passing(w, c) && !Passing(w, to))
  {
    if IsExtension(c.next) {
      NoLength(w.image[c.hdr + c.len + 1]);
    }
  }

  lemma NeverStuckStep(w: Walk, c: Cursor)
    requires NeverStuck(w, c)
    ensures !Stuck(w, c)
    ensures Step(w, c).Go? ==> NeverStuck(w, Step(w, c).to)
  {
    assert After(w, c, 0) == Go(c);
    if Step(w, c).Go? {
      var to := Step(w, c).to;
      forall n: nat | After(w, to, n).Go?
        ensures !Stuck(w, After(w, to, n).to)
      {
        assert After(w, c, n + 1) == After(w, to, n);
      }
    }
  }

  lemma {:induction false} EndsUnlessStuck(w: Walk, c: Cursor) returns (n: nat)
    requires NeverStuck(w, c)
    ensures After(w, c, n).Stop?
    decreases Ahead(w, c), Passing(w, c)
  {
    NeverStuckStep(w, c);
    if Step(w, c).Stop? {
      assert After(w, c, 1) == Stop;
      return 1;
    }
    Progress(w, c);
    var m := EndsUnlessStuck(w, Step(w, c).to);
    return m + 1;
  }

  lemma {:induction false} StuckForEver(w: Walk, c: Cursor, n: nat)
    requires Stuck(w, c)
    ensures After(w, c, n).Go?
    decreases n
  {
    if n > 0 {
      var to := Step(w, c).to;
      assert to.hdr + to.len == c.hdr + c.len || to.len == 0;
      NoLength(w.image[c.hdr + c.len + 1]);
      StuckForEver(w, to, n - 1);
    }
  }

  lemma {:induction false} StuckLater(w: Walk, c: Cursor, m: nat, n: nat)
    requires After(w, c, m).Go? && Stuck(w, After(w, c, m).to)
    ensures After(w, c, n).Go?
    decreases n
  {
    if m == 0 {
      StuckForEver(w, c, n);
    } else if n > 0 {
      StuckLater(w, Step(w, c).to, m - 1, n - 1);
    }
  }

  // The walk ends exactly if it never comes to a header it is stuck on.
  lemma HaltsIffNeverStuck(w: Walk, c: Cursor)
    ensures Halts(w, c) <==> NeverStuck(w, c)
  {
    if NeverStuck(w, c) {
      var n := EndsUnlessStuck(w, c);
    } else {
      var m: nat :| After(w, c, m).Go? && Stuck(w, After(w, c, m).to);
      forall n: nat
        ensures After(w, c, n).Go?
      {
        StuckLater(w, c, m, n);
      }
    }
  }

  // With lengths as the RFC has them the walk always ends.
  lemma ExactWalkHalts(w: Walk, c: Cursor)
    requires !w.narrow
    ensures Halts(w, c)
  {
    HaltsIffNeverStuck(w, c);
  }

  // And so it does in the program when no header it passes has a length byte of 31 modulo 32.
  lemma HaltsWithoutZeroLengths(w: Walk, c: Cursor)
    requires forall n: nat :: After(w, c, n).Go? && Passing(w, After(w, c, n).to) ==>
                                LengthByte(w, After(w, c, n).to) % 32 != 31
    ensures Halts(w, c)
  {
    HaltsIffNeverStuck(w, c);
  }

  // The length byte of the header the next turn passes.
  function LengthByte(w: Walk, c: Cursor): Byte
    requires Passing(w, c)
  {
    w.image[c.hdr + c.len + 1]
  }

  // An image on which the program runs for ever: a destination option header whose length byte
  // is 31 and that announces another one.
  lemma WalkMayNotEnd()
    ensures var w := Capture([0, 0, 0, 0, 0, 0, DSTOPTS, 0, DSTOPTS, 31], 8, true);
            !Halts(w, Entry(w, 0))
  {
    var w := Capture([0, 0, 0, 0, 0, 0, DSTOPTS, 0, DSTOPTS, 31], 8, true);
    var c := Entry(w, 0);
    assert Stuck(w, c) && After(w, c, 0) == Go(c);
    HaltsIffNeverStuck(w, c);
  }

  // ---------- Agreement with RFC 2460 ----------

  function Exact(w: Walk): Walk {
    w.(narrow := false)
  }

  // A turn past an extension header agrees with the RFC exactly when its length byte is at most 30.
  lemma StepAgrees(w: Walk, c: Cursor)
    requires w.narrow
    ensures Step(w, c) == Step(Exact(w), c) <==> (Passing(w, c) ==> LengthByte(w, c) <= 30)
  {
  }

  // Every header passed within n turns of the RFC's walk has a length byte of at most 30.
  ghost predicate ShortFor(w: Walk, c: Cursor, n: nat)
    decreases n
  {
    n > 0 ==>
      && (Passing(w, c) ==> LengthByte(w, c) <= 30)
      && (Step(Exact(w), c).Go? ==> ShortFor(w, Step(Exact(w), c).to, n - 1))
  }

  // The two walks are in step for n turns.
  ghost predicate InStep(w: Walk, c: Cursor, n: nat) {
    forall k: nat :: k <= n ==> After(w, c, k) == After(Exact(w), c, k)
  }

  // The program's walk is the RFC's, turn by turn, exactly as long as the lengths are small.
  lemma {:induction false} WalkAgrees(w: Walk, c: Cursor, n: nat)
    requires w.narrow
    ensures InStep(w, c, n) <==> ShortFor(w, c, n)
    decreases n
  {
    if n > 0 {
      StepAgrees(w, c);
      assert After(w, c, 1) == Step(w, c) && After(Exact(w), c, 1) == Step(Exact(w), c);
      if Step(w, c) == Step(Exact(w), c) {
        if Step(w, c).Go? {
          var to := Step(w, c).to;
          WalkAgrees(w, to, n - 1);
          InStepShift(w, c, to, n);
        }
      } else {
        assert !InStep(w, c, n);
      }
    }
  }

  lemma InStepShift(w: Walk, c: Cursor, to: Cursor, n: nat)
    requires n > 0 && Step(w, c) == Step(Exact(w), c) == Go(to)
    ensures InStep(w, c, n) <==> InStep(w, to, n - 1)
  {
    if InStep(w, to, n - 1) {
      forall k: nat | k <= n
        ensures After(w, c, k) == After(Exact(w), c, k)
      {
        if k > 0 {
          assert After(w, to, k - 1) == After(Exact(w), to, k - 1);
        }
      }
    }
    if InStep(w, c, n) {
      forall k: nat | k <= n - 1
        ensures After(w, to, k) == After(Exact(w), to, k)
      {
        assert After(w, c, k + 1) == After(Exact(w), c, k + 1);
      }
    }
  }

  // ---------- The program ----------

  // What a walk that ends reports.
  ghost function Sightings(w: Walk, c: Cursor): seq<Sighting>
    requires NeverStuck(w, c)
    decreases Ahead(w, c), Passing(w, c)
  {
    NeverStuckStep(w, c);
    if Step(w, c).Stop? then Sight(w, c)
    else
      Progress(w, c);
      Sight(w, c) + Sightings(w, Step(w, c).to)
  }

  // The header the cursor leads to is an inner IPv6 header or a mobility header.
  predicate Sees(w: Walk, c: Cursor) {
    var h := c.hdr + c.len;
    (c.next == 41 && h + 6 < |w.image|) || (c.next == 135 && h + 2 < |w.image|)
  }

  // And this is what is to be reported of it.
  predicate IsSightOf(x: Sighting, w: Walk, c: Cursor) {
    var h := c.hdr + c.len;
    match x
    case Inner(at) => c.next == 41 && at == h
    case Mobility(at, kind) => c.next == 135 && at == h && h + 2 < |w.image| && kind == w.image[h + 2]
  }

  // The log has what is to be reported of these turns, in their order.
  ghost predicate ReportsTurns(w: Walk, c: Cursor, log: seq<Sighting>, turns: seq<nat>) {
    && |turns| == |log| && (forall j, k :: 0 <= j < k < |turns| ==> turns[j] < turns[k])
    && forall k :: 0 <= k < |turns| ==>
         After(w, c, turns[k]).Go? && IsSightOf(log[k], w, After(w, c, turns[k]).to)
  }

  // They are all the turns of which something is to be reported.
  ghost predicate NoneMissed(w: Walk, c: Cursor, turns: seq<nat>) {
    forall n: nat :: After(w, c, n).Go? && Sees(w, After(w, c, n).to) ==> n in turns
  }

  // The turns of a walk, when the first of them is this and the others are those of the rest.
  function TurnsFrom(seen: bool, later: seq<nat>): seq<nat> {
    (if seen then [0] else []) + seq(|later|, k requires 0 <= k < |later| => later[k] + 1)
  }

  lemma ReportsFrom(w: Walk, c: Cursor, log: seq<Sighting>, later: seq<nat>)
    requires Step(w, c).Go? && ReportsTurns(w, Step(w, c).to, log, later)
    ensures ReportsTurns(w, c, Sight(w, c) + log, TurnsFrom(Sees(w, c), later))
  {
    var turns, all := TurnsFrom(Sees(w, c), later), Sight(w, c) + log;
    var m := if Sees(w, c) then 1 else 0;
    assert |Sight(w, c)| == m;
    forall k | 0 <= k < |turns|
      ensures After(w, c, turns[k]).Go? && IsSightOf(all[k], w, After(w, c, turns[k]).to)
    {
      if k >= m {
        assert turns[k] == later[k - m] + 1 && all[k] == log[k - m];
        assert After(w, c, later[k - m] + 1) == After(w, Step(w, c).to, later[k - m]);
      } else {
        assert After(w, c, 0) == Go(c);
      }
    }
  }

  lemma NoneMissedFrom(w: Walk, c: Cursor, later: seq<nat>)
    requires Step(w, c).Go? && NoneMissed(w, Step(w, c).to, later)
    ensures NoneMissed(w, c, TurnsFrom(Sees(w, c), later))
  {
    var turns := TurnsFrom(Sees(w, c), later);
    var m := if Sees(w, c) then 1 else 0;
    forall n: nat | After(w, c, n).Go? && Sees(w, After(w, c, n).to)
      ensures n in turns
    {
      if n > 0 {
        assert After(w, c, n) == After(w, Step(w, c).to, n - 1);
        var k :| 0 <= k < |later| && later[k] == n - 1;
        assert turns[m + k] == n;
      } else {
        assert turns[0] == 0;
      }
    }
  }

  // What a walk reports, turn by turn: every inner IPv6 header and every mobility header it comes
  // to, each once, in the order of the turns, and nothing else.
  lemma {:induction false} SightingsMeaning(w: Walk, c: Cursor) returns (turns: seq<nat>)
    requires NeverStuck(w, c)
    ensures ReportsTurns(w, c, Sightings(w, c), turns) && NoneMissed(w, c, turns)
    decreases Ahead(w, c), Passing(w, c)
  {
    SightingsStep(w, c);
    if Step(w, c).Stop? {
      turns := [];
      assert forall n: nat :: After(w, c, n).Go? ==> n == 0;
    } else {
      var to := Step(w, c).to;
      var later := SightingsMeaning(w, to);
      turns := TurnsFrom(Sees(w, c), later);
      ReportsFrom(w, c, Sightings(w, to), later);
      NoneMissedFrom(w, c, later);
    }
  }

  lemma SightingsStep(w: Walk, c: Cursor)
    requires NeverStuck(w, c)
    ensures Step(w, c).Stop? ==> Sightings(w, c) == Sight(w, c)
    ensures Step(w, c).Go? ==>
              var to := Step(w, c).to;
              && NeverStuck(w, to) && Sightings(w, c) == Sight(w, c) + Sightings(w, to)
              && (Ahead(w, to) < Ahead(w, c)
                  || (Ahead(w, to) == Ahead(w, c) && Passing(w, c) && !Passing(w, to)))
  {
    NeverStuckStep(w, c);
    if Step(w, c).Go? {
      Progress(w, c);
    }
  }

  lemma Associate<T>(a: seq<T>, b: seq<T>, c: seq<T>)
    ensures a + (b + c) == a + b + c
  {
  }

  // trace_oml_parse_ip6_hdrs, with the eight-bit length. The walk ends where the image does.
  method ParseHeaders(w: Walk, ip6: nat) returns (log: seq<Sighting>)
    requires w.narrow && ip6 + 6 < |w.image| && NeverStuck(w, Entry(w, ip6))
    ensures log == Sightings(w, Entry(w, ip6))
    decreases |w.image| - ip6
  {
    var hdr: nat, hdrNext: Byte, hdrLen: nat, resume := ip6, w.image[ip6 + 6], w.first, false;
    log := [];
    ghost var c, all := Entry(w, ip6), Sightings(w, Entry(w, ip6));
    while hdrNext != NO_NEXT && !resume
      invariant ip6 < hdr + hdrLen
      invariant if resume then log == all else
                  c == Cursor(hdr, hdrLen, hdrNext) && NeverStuck(w, c) && log + Sightings(w, c) == all
      decreases !resume, Ahead(w, c), Passing(w, c)
    {
      SightingsStep(w, c);
      ghost var before, sight := log, Sight(w, c);
      hdr := hdr + hdrLen;
      if hdr + LastRead(hdrNext) >= |w.image| {
        return;
      }
      hdrLen := (w.image[hdr + 1] as int * 8 + 8) % 256;
      if hdrNext == IPV6 {
        var inner := ParseHeaders(w, hdr);
        log := log + [Inner(hdr)] + inner;
        Associate(before, sight, inner);
        return;
      } else if hdrNext == ROUTING || hdrNext == DSTOPTS {
      } else if hdrNext == MOBILITY {
        log := log + [Mobility(hdr, w.image[hdr + 2])];
      } else {
        resume := true;
      }
      hdrNext := w.image[hdr];
      if !resume {
        c := Step(w, c).to;
        assert log == before + sight;
        Associate(before, sight, Sightings(w, c));
      }
    }
  }
}
