// Whole lists of numbers stamped one after the other, and what the receiver reads back.
module PacketFields {
  import opened Words
  import opened Packets

  datatype Field = F32(value: int) | F64(value: int)

  function Width(f: Field): nat {
    if f.F32? then 4 else 8
  }

  predicate InRange(f: Field) {
    if f.F32? then Fits(f.value, TWO_32) else Fits(f.value, TWO_64)
  }

  function Encode(h: Host, f: Field): (w: seq<Byte>)
    ensures |w| == Width(f)
  {
    if f.F32? then Encode32(h, f.value) else Encode64(h, f.value)
  }

  function Total(fields: seq<Field>): nat {
    if fields == [] then 0 else Width(fields[0]) + Total(fields[1..])
  }

  // Appending the fields one by one at a cursor, as stampInt32Val and stampInt64Val do.
  ghost predicate AppendRun(h: Host, before: seq<Byte>, cursor: nat, fields: seq<Field>, after: seq<Byte>)
    decreases |fields|
  {
    if fields == [] then after == before
    else exists mid: seq<Byte> ::
        Stamped(before, cursor, Encode(h, fields[0]), mid)
        && AppendRun(h, mid, cursor + Width(fields[0]), fields[1..], after)
  }

  // The extractions that match a list of fields.
  function ExtractAll(h: Host, payload: seq<Byte>, cursor: nat, fields: seq<Field>): (vs: seq<int>)
    ensures |vs| == |fields|
    decreases |fields|
  {
    if fields == [] then []
    else
      var (v, next) := Extract(h, payload, cursor, fields[0].F64?);
      [v] + ExtractAll(h, payload, next, fields[1..])
  }

  function Values(fields: seq<Field>): (vs: seq<int>)
    ensures |vs| == |fields|
    ensures forall i :: 0 <= i < |fields| ==> vs[i] == fields[i].value
  {
    seq(|fields|, i requires 0 <= i < |fields| => fields[i].value)
  }

  // A 64-bit field is always readable, a 32-bit one when its wire bytes are plain.
  predicate Readable(sender: Host, receiver: Host, f: Field) {
    f.F32? ==> Plain(receiver, Encode32(sender, f.value))
  }

  // An append run that fits never reallocates, so it keeps everything before the cursor ...
  lemma {:induction false} RunKeeps(h: Host, before: seq<Byte>, cursor: nat, fields: seq<Field>, after: seq<Byte>)
    requires AppendRun(h, before, cursor, fields, after)
    requires cursor + Total(fields) <= |before|
    ensures |after| == |before|
    ensures forall k :: 0 <= k < cursor ==> after[k] == before[k]
    decreases |fields|
  {
    if fields != [] {
      var mid: seq<Byte> :| Stamped(before, cursor, Encode(h, fields[0]), mid)
        && AppendRun(h, mid, cursor + Width(fields[0]), fields[1..], after);
      RunKeeps(h, mid, cursor + Width(fields[0]), fields[1..], after);
    }
  }

  // One field: the extraction moves past it and is right exactly when it is readable.
  lemma FieldReadsBack(sender: Host, receiver: Host, payload: seq<Byte>, cursor: nat, f: Field)
    requires sender.bigEndian == receiver.bigEndian && InRange(f)
    requires cursor + Width(f) <= |payload|
    requires payload[cursor..cursor + Width(f)] == Encode(sender, f)
    ensures Extract(receiver, payload, cursor, f.F64?).1 == cursor + Width(f)
    ensures Extract(receiver, payload, cursor, f.F64?).0 == f.value <==> Readable(sender, receiver, f)
  {
    if f.F32? {
      RoundTrip32(sender, receiver, f.value);
    } else {
      RoundTrip64(sender, receiver, f.value);
    }
  }

  ghost predicate AllReadable(sender: Host, receiver: Host, fields: seq<Field>) {
    forall f :: f in fields ==> Readable(sender, receiver, f)
  }

  ghost predicate AllInRange(fields: seq<Field>) {
    forall f :: f in fields ==> InRange(f)
  }

  // ... and the matching extractions return the list exactly when every field is readable.
  lemma {:induction false} RunReadsBack(sender: Host, receiver: Host, before: seq<Byte>, cursor: nat,
                                        fields: seq<Field>, after: seq<Byte>, payload: seq<Byte>)
    requires sender.bigEndian == receiver.bigEndian
    requires AppendRun(sender, before, cursor, fields, after)
    requires cursor + Total(fields) <= |before|
    requires AllInRange(fields)
    requires payload <= after && cursor + Total(fields) <= |payload|
    ensures ExtractAll(receiver, payload, cursor, fields) == Values(fields)
            <==> AllReadable(sender, receiver, fields)
    decreases |fields|
  {
    if fields != [] {
      var f, rest := fields[0], fields[1..];
      assert f in fields && fields == [f] + rest;
      ConsFields(sender, receiver, f, rest);
      var mid: seq<Byte> := FirstStep(sender, before, cursor, fields, after, payload);
      RunReadsBack(sender, receiver, mid, cursor + Width(f), rest, after, payload);
      FieldReadsBack(sender, receiver, payload, cursor, f);
      var tail := ExtractAll(receiver, payload, cursor + Width(f), rest);
      var head := Extract(receiver, payload, cursor, f.F64?).0;
      assert ExtractAll(receiver, payload, cursor, fields) == [head] + tail;
      assert [head] + tail == [f.value] + Values(rest) <==> head == f.value && tail == Values(rest) by {
        assert ([head] + tail)[0] == head && ([head] + tail)[1..] == tail;
        assert ([f.value] + Values(rest))[0] == f.value && ([f.value] + Values(rest))[1..] == Values(rest);
      }
    }
  }

  lemma ConsFields(sender: Host, receiver: Host, f: Field, rest: seq<Field>)
    ensures Values([f] + rest) == [f.value] + Values(rest)
    ensures AllReadable(sender, receiver, [f] + rest)
            <==> Readable(sender, receiver, f) && AllReadable(sender, receiver, rest)
    ensures AllInRange([f] + rest) <==> InRange(f) && AllInRange(rest)
  {
    var fields := [f] + rest;
    assert f == fields[0] && forall g :: g in rest ==> g in fields;
    assert forall g :: g in fields ==> g == f || g in rest;
  }

  // The first field of a fitting run is still in place at the end.
  lemma FirstStep(h: Host, before: seq<Byte>, cursor: nat, fields: seq<Field>, after: seq<Byte>,
                  payload: seq<Byte>) returns (mid: seq<Byte>)
    requires fields != [] && AppendRun(h, before, cursor, fields, after)
    requires cursor + Total(fields) <= |before|
    requires payload <= after && cursor + Total(fields) <= |payload|
    ensures |mid| == |before| && AppendRun(h, mid, cursor + Width(fields[0]), fields[1..], after)
    ensures payload[cursor..cursor + Width(fields[0])] == Encode(h, fields[0])
  {
    mid :| Stamped(before, cursor, Encode(h, fields[0]), mid)
      && AppendRun(h, mid, cursor + Width(fields[0]), fields[1..], after);
    RunKeeps(h, mid, cursor + Width(fields[0]), fields[1..], after);
  }

  // The packet law: mark, append any fields that fit behind the marker, send enough of the
  // buffer; the receiver finds the version and reads the list back iff every field is readable.
  lemma StampedFieldsRoundTrip(sender: Host, receiver: Host, blank: seq<Byte>, version: Byte, marked: seq<Byte>,
                               fields: seq<Field>, after: seq<Byte>, size: nat)
    requires sender.bigEndian == receiver.bigEndian
    requires Marked(blank, version, marked)
    requires AppendRun(sender, marked, 3, fields, after)
    requires Total(fields) <= |marked| - 3
    requires AllInRange(fields)
    requires 3 + Total(fields) <= size <= |after|
    ensures HasMarker(after[..size]) && StampOf(receiver, after[..size]) == CharValue(receiver, version)
    ensures ExtractAll(receiver, after[..size], 3, fields) == Values(fields)
            <==> AllReadable(sender, receiver, fields)
  {
    RunKeeps(sender, marked, 3, fields, after);
    assert marked[..3][0] == marked[0] && marked[..3][1] == marked[1] && marked[..3][2] == marked[2];
    RunReadsBack(sender, receiver, marked, 3, fields, after, after[..size]);
  }

  // Fields that do not fit make the buffer move without its content: from any marked buffer
  // there is a run after which the marker itself is gone.
  lemma OverflowCanLoseMarker(h: Host, marked: seq<Byte>, fields: seq<Field>) returns (after: seq<Byte>)
    requires |marked| >= 3 && Total(fields) > |marked| - 3
    ensures AppendRun(h, marked, 3, fields, after)
    ensures |after| >= 3 && forall size :: 3 <= size <= |after| ==> !HasMarker(after[..size])
  {
    after := OverflowRun(h, marked, 3, fields);
    assert forall size :: 3 <= size <= |after| ==> after[..size][0] == after[0];
  }

  lemma {:induction false} OverflowRun(h: Host, before: seq<Byte>, cursor: nat, fields: seq<Field>)
    returns (after: seq<Byte>)
    requires 3 <= cursor && |before| >= 3
    requires before[0] == 0 || cursor <= |before| < cursor + Total(fields)
    ensures AppendRun(h, before, cursor, fields, after) && |after| >= 3 && after[0] == 0
    decreases |fields|
  {
    if fields == [] {
      after := before;
    } else {
      var w := Encode(h, fields[0]);
      var mid: seq<Byte>;
      if cursor + |w| <= |before| {
        mid := Overwrite(before, cursor, w);
      } else {
        mid := seq(cursor, _ => 0) + w;
      }
      assert Stamped(before, cursor, w, mid);
      after := OverflowRun(h, mid, cursor + |w|, fields[1..]);
    }
  }

  // ---------- 16-bit stamps ----------

  // One appended 16-bit number: written where the cursor stands after being advanced.
  ghost predicate Stamped16(h: Host, before: seq<Byte>, cursor: nat, v: int, after: seq<Byte>) {
    Stamped(before, cursor + 2, Encode16(h, v), after)
  }

  ghost predicate AppendRun16(h: Host, before: seq<Byte>, cursor: nat, vals: seq<int>, after: seq<Byte>)
    decreases |vals|
  {
    if vals == [] then after == before
    else exists mid: seq<Byte> ::
        Stamped16(h, before, cursor, vals[0], mid) && AppendRun16(h, mid, cursor + 2, vals[1..], after)
  }

  // Where the j-th of the appended numbers lands.
  function Slot(cursor: nat, j: nat): nat {
    cursor + 2 * j
  }

  function ExtractAll16(h: Host, payload: seq<Byte>, cursor: nat, n: nat): (vs: seq<int>)
    ensures |vs| == n
    decreases n
  {
    if n == 0 then []
    else if |payload| < cursor + 2 then [0] + ExtractAll16(h, payload, cursor, n - 1)
    else [Decode16(h, payload[cursor..cursor + 2])] + ExtractAll16(h, payload, cursor + 2, n - 1)
  }

  // The slot at the cursor, and everything before it, keep their previous content ...
  lemma {:induction false} Stamps16Keep(h: Host, before: seq<Byte>, cursor: nat, vals: seq<int>, after: seq<Byte>)
    requires AppendRun16(h, before, cursor, vals, after)
    requires Slot(cursor, |vals| + 1) <= |before|
    ensures |after| == |before|
    ensures after[..cursor + 2] == before[..cursor + 2]
    decreases |vals|
  {
    if vals != [] {
      var mid: seq<Byte> :| Stamped16(h, before, cursor, vals[0], mid)
        && AppendRun16(h, mid, cursor + 2, vals[1..], after);
      Stamps16Keep(h, mid, cursor + 2, vals[1..], after);
      assert after[..cursor + 2] == after[..cursor + 4][..cursor + 2] == mid[..cursor + 2];
    }
  }

  lemma SliceOfPrefix(s: seq<Byte>, t: seq<Byte>, n: nat)
    requires n + 2 <= |s| && n + 2 <= |t| && s[..n + 2] == t[..n + 2]
    ensures s[n..n + 2] == t[n..n + 2]
  {
    assert s[n..n + 2] == s[..n + 2][n..] && t[n..n + 2] == t[..n + 2][n..];
  }

  lemma StampedSlice(before: seq<Byte>, at: nat, bytes: seq<Byte>, after: seq<Byte>)
    requires Stamped(before, at, bytes, after) && at + |bytes| <= |before|
    ensures |after| == |before| && after[at..at + |bytes|] == bytes
  {
  }

  // ... because the j-th value lands one slot after the offset returned for it.
  lemma {:induction false} Stamps16Shift(h: Host, before: seq<Byte>, cursor: nat, vals: seq<int>, after: seq<Byte>,
                                         j: nat)
    requires AppendRun16(h, before, cursor, vals, after)
    requires Slot(cursor, |vals| + 1) <= |before|
    requires j < |vals|
    ensures |after| == |before|
    ensures after[Slot(cursor, j + 1)..Slot(cursor, j + 2)] == Encode16(h, vals[j])
    decreases |vals|
  {
    var mid := FirstStamp16(h, before, cursor, vals, after);
    if j == 0 {
      SliceOfPrefix(after, mid, cursor + 2);
    } else {
      Stamps16Shift(h, mid, cursor + 2, vals[1..], after, j - 1);
      assert Slot(cursor + 2, j) == Slot(cursor, j + 1) && Slot(cursor + 2, j + 1) == Slot(cursor, j + 2);
    }
  }

  lemma FirstStamp16(h: Host, before: seq<Byte>, cursor: nat, vals: seq<int>, after: seq<Byte>)
    returns (mid: seq<Byte>)
    requires vals != [] && AppendRun16(h, before, cursor, vals, after) && Slot(cursor, |vals| + 1) <= |before|
    ensures |mid| == |before| == |after| && AppendRun16(h, mid, cursor + 2, vals[1..], after)
    ensures mid[cursor + 2..cursor + 4] == Encode16(h, vals[0]) && after[..cursor + 4] == mid[..cursor + 4]
  {
    mid := FirstOfRun16(h, before, cursor, vals, after);
    StampedSlice(before, cursor + 2, Encode16(h, vals[0]), mid);
    Stamps16Keep(h, mid, cursor + 2, vals[1..], after);
  }

  lemma FirstOfRun16(h: Host, before: seq<Byte>, cursor: nat, vals: seq<int>, after: seq<Byte>)
    returns (mid: seq<Byte>)
    requires vals != [] && AppendRun16(h, before, cursor, vals, after)
    ensures Stamped16(h, before, cursor, vals[0], mid) && AppendRun16(h, mid, cursor + 2, vals[1..], after)
  {
    mid :| Stamped16(h, before, cursor, vals[0], mid) && AppendRun16(h, mid, cursor + 2, vals[1..], after);
  }

  // What the j-th of n extractions reads: the old content of the first slot, then the values one
  // late, each as the receiver decodes it.
  function ReadShifted(sender: Host, receiver: Host, before: seq<Byte>, cursor: nat, vals: seq<int>, j: nat): int
    requires cursor + 2 <= |before| && j < |vals|
  {
    Decode16(receiver, if j == 0 then before[cursor..cursor + 2] else Encode16(sender, vals[j - 1]))
  }

  lemma Stamps16ReadShifted(sender: Host, receiver: Host, before: seq<Byte>, cursor: nat, vals: seq<int>,
                            after: seq<Byte>, j: nat)
    requires AppendRun16(sender, before, cursor, vals, after)
    requires Slot(cursor, |vals| + 1) <= |before| && j < |vals|
    ensures ExtractAll16(receiver, after, cursor, |vals|)[j] == ReadShifted(sender, receiver, before, cursor, vals, j)
  {
    Stamps16Keep(sender, before, cursor, vals, after);
    if j > 0 {
      Stamps16Shift(sender, before, cursor, vals, after, j - 1);
    }
    ReadFromSlot(sender, receiver, before, cursor, vals, after, j);
  }

  lemma ReadFromSlot(sender: Host, receiver: Host, before: seq<Byte>, cursor: nat, vals: seq<int>,
                     after: seq<Byte>, j: nat)
    requires |after| == |before| && Slot(cursor, |vals| + 1) <= |before| && j < |vals|
    requires after[..cursor + 2] == before[..cursor + 2]
    requires j > 0 ==> after[Slot(cursor, j)..Slot(cursor, j + 1)] == Encode16(sender, vals[j - 1])
    ensures ExtractAll16(receiver, after, cursor, |vals|)[j] == ReadShifted(sender, receiver, before, cursor, vals, j)
  {
    Extract16At(receiver, after, cursor, |vals|, j);
    SliceOfPrefix(after, before, cursor);
  }

  // So between hosts of one byte order a value is read in its successor's place exactly when its
  // wire bytes are plain ...
  lemma ShiftedValue(sender: Host, receiver: Host, before: seq<Byte>, cursor: nat, vals: seq<int>, j: nat)
    requires sender.bigEndian == receiver.bigEndian && cursor + 2 <= |before| && 0 < j < |vals|
    requires Fits(vals[j - 1], TWO_16)
    ensures ReadShifted(sender, receiver, before, cursor, vals, j) == vals[j - 1]
            <==> Plain(receiver, Encode16(sender, vals[j - 1]))
  {
    RoundTrip16(sender, receiver, vals[j - 1]);
  }

  // ... and the extractions return the list exactly when its first value is what the first slot
  // held before and each further one is what its predecessor decodes to.
  lemma Stamps16ReadBack(sender: Host, receiver: Host, before: seq<Byte>, cursor: nat, vals: seq<int>,
                         after: seq<Byte>)
    requires AppendRun16(sender, before, cursor, vals, after)
    requires Slot(cursor, |vals| + 1) <= |before|
    ensures ExtractAll16(receiver, after, cursor, |vals|) == vals
            <==> forall j :: 0 <= j < |vals| ==> vals[j] == ReadShifted(sender, receiver, before, cursor, vals, j)
  {
    var read := ExtractAll16(receiver, after, cursor, |vals|);
    forall j | 0 <= j < |vals|
      ensures read[j] == ReadShifted(sender, receiver, before, cursor, vals, j)
    {
      Stamps16ReadShifted(sender, receiver, before, cursor, vals, after, j);
    }
  }

  // For numbers that survive the wire that is a list of one repeated number, the one the first
  // slot already held.
  lemma {:induction false} PlainReadBackIsConstant(sender: Host, receiver: Host, before: seq<Byte>, cursor: nat,
                                                   vals: seq<int>)
    requires sender.bigEndian == receiver.bigEndian && cursor + 2 <= |before|
    requires forall v :: v in vals ==> Fits(v, TWO_16) && Plain(receiver, Encode16(sender, v))
    ensures (forall j :: 0 <= j < |vals| ==> vals[j] == ReadShifted(sender, receiver, before, cursor, vals, j))
            <==> forall j :: 0 <= j < |vals| ==> vals[j] == Decode16(receiver, before[cursor..cursor + 2])
  {
    var old16 := Decode16(receiver, before[cursor..cursor + 2]);
    forall j | 0 < j < |vals|
      ensures ReadShifted(sender, receiver, before, cursor, vals, j) == vals[j - 1]
    {
      assert vals[j - 1] in vals;
      ShiftedValue(sender, receiver, before, cursor, vals, j);
    }
    if forall j :: 0 <= j < |vals| ==> vals[j] == ReadShifted(sender, receiver, before, cursor, vals, j) {
      AllLikeFirst(vals, old16);
    }
  }

  lemma {:induction false} AllLikeFirst(vals: seq<int>, v: int)
    requires vals != [] ==> vals[0] == v
    requires forall j :: 0 < j < |vals| ==> vals[j] == vals[j - 1]
    ensures forall j :: 0 <= j < |vals| ==> vals[j] == v
  {
    if |vals| > 1 {
      var front := vals[..|vals| - 1];
      AllLikeFirst(front, v);
      assert front[|vals| - 2] == vals[|vals| - 2];
      assert forall j :: 0 <= j < |front| ==> front[j] == vals[j];
    }
  }

  // One 16-bit stamp returns this position ...
  function Returned16(cursor: nat, at: int): nat {
    if at < 0 then cursor else at
  }

  // ... and writes at this one: the advanced cursor, whatever position was asked for.
  function Written16(cursor: nat, at: int): nat {
    if at < 0 then cursor + 2 else cursor
  }

  // The number stands where the caller is told.
  predicate StandsAt(h: Host, v: int, pos: nat, after: seq<Byte>) {
    pos + 2 <= |after| && after[pos..pos + 2] == Encode16(h, v)
  }

  // The promise is kept on every buffer of at least any given length exactly when the position
  // asked for is the cursor; so it is never kept for an append.
  lemma Stamp16StandsIff(h: Host, v: int, cursor: nat, at: int, room: nat)
    ensures (forall before, after :: |before| >= room && Stamped(before, Written16(cursor, at), Encode16(h, v), after)
               ==> StandsAt(h, v, Returned16(cursor, at), after))
            <==> at == cursor
  {
    if at != cursor {
      var before, after := Stamp16Fails(h, v, Returned16(cursor, at), Written16(cursor, at), room);
    }
  }

  // A buffer filled with another byte, on which a stamp beside the position leaves it wrong.
  lemma Stamp16Fails(h: Host, v: int, pos: nat, at: nat, room: nat) returns (before: seq<Byte>, after: seq<Byte>)
    requires pos != at
    ensures |before| >= room && |before| >= at + 2 && |before| >= pos + 2
    ensures Stamped(before, at, Encode16(h, v), after) && !StandsAt(h, v, pos, after)
  {
    var w := Encode16(h, v);
    // The byte of the slot at pos that is not written.
    var k := if pos < at then 0 else 1;
    var filler: Byte := if w[k] == 0 then 1 else 0;
    before := seq(pos + at + 2 + room, _ => filler);
    after := Overwrite(before, at, w);
    assert after[pos..pos + 2][k] == after[pos + k] == filler;
  }

  // On a given buffer an appended number stands at the position returned only if it was there before.
  lemma Append16StandsIff(h: Host, v: int, cursor: nat, before: seq<Byte>, after: seq<Byte>)
    requires cursor + 4 <= |before| && Stamped16(h, before, cursor, v, after)
    ensures StandsAt(h, v, cursor, after) <==> StandsAt(h, v, cursor, before)
  {
    assert after[cursor..cursor + 2] == before[cursor..cursor + 2];
  }

  lemma {:induction false} Extract16At(h: Host, payload: seq<Byte>, cursor: nat, n: nat, j: nat)
    requires j < n && Slot(cursor, n) <= |payload|
    ensures ExtractAll16(h, payload, cursor, n)[j] == Decode16(h, payload[Slot(cursor, j)..Slot(cursor, j + 1)])
    decreases n
  {
    if j > 0 {
      Extract16At(h, payload, cursor + 2, n - 1, j - 1);
    }
  }
}
