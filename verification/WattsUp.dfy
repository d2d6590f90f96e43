// The packet buffer of the Watts Up? reader: commands are printed into it, and what the meter
// answers is taken apart in place. Pointers into the buffer are indices; NULL is -1.
module WattsUp {
  import opened CStrings
  import opened WattsUpText

  // Some delimiters have become NUL, and nothing else changed.
  ghost predicate OnlyCuts(before: seq<char>, after: seq<char>) {
    && |before| == |after|
    && forall j :: 0 <= j < |before| && after[j] != before[j] ==>
         after[j] == NUL && (before[j] == ',' || before[j] == ';')
  }

  lemma CutsCompose(a: seq<char>, b: seq<char>, c: seq<char>)
    requires OnlyCuts(a, b) && OnlyCuts(b, c)
    ensures OnlyCuts(a, c)
  {
  }

  lemma OneCut(before: seq<char>, after: seq<char>, next: int)
    requires next == NULL ==> before == after
    requires next != NULL ==>
               0 < next <= |before| && IsDelimiter(before[next - 1]) && after == before[next - 1 := NUL]
    ensures OnlyCuts(before, after)
  {
  }

  // ---------- The library calls of the tokeniser ----------

  // Where the first c at or after s is, or NULL.
  ghost predicate FirstAt(t: seq<char>, s: int, c: char, r: int)
    requires 0 <= s <= |t|
  {
    if r == NULL then forall i :: s <= i < |t| ==> t[i] != c
    else s <= r < |t| && t[r] == c && forall i :: s <= i < r ==> t[i] != c
  }

  // strchr from s in a string that ends at e.
  method Strchr(buf: array<char>, s: nat, c: char, ghost t: seq<char>) returns (r: int)
    requires s <= |t| < buf.Length && t == buf[..|t|] && IsCString(t) && buf[|t|] == NUL && c != NUL
    ensures FirstAt(t, s, c, r)
  {
    r := s;
    while buf[r] != c
      invariant s <= r <= |t| && forall i :: s <= i < r ==> t[i] != c
      decreases |t| - r
    {
      if buf[r] == NUL {
        return NULL;
      }
      r := r + 1;
    }
  }

  // strpbrk(s, ",;"): the end of the first segment.
  method Strpbrk(buf: array<char>, s: nat, ghost e: nat) returns (r: int)
    requires s <= e < buf.Length && buf[e] == NUL && NoNul(buf, s, e)
    ensures r == NULL || s <= r < e
    ensures r == NULL ==> Segments(buf[s..e]) == [buf[s..e]]
    ensures r != NULL ==> IsDelimiter(buf[r]) && Segments(buf[s..e]) == [buf[s..r]] + Segments(buf[r + 1..e])
  {
    r := s;
    while !IsDelimiter(buf[r])
      invariant s <= r <= e && forall c :: c in buf[s..r] ==> !IsDelimiter(c)
      decreases e - r
    {
      if buf[r] == NUL {
        assert r == e;
        SegmentsLast(buf[s..e]);
        return NULL;
      }
      assert buf[s..r + 1] == buf[s..r] + [buf[r]];
      r := r + 1;
    }
    assert buf[s..e] == buf[s..r] + [buf[r]] + buf[r + 1..e];
    SegmentsCons(buf[s..r], buf[r], buf[r + 1..e]);
  }

  // Skips the white space a string starts with.
  method SkipSpace(buf: array<char>, s: nat, ghost e: nat) returns (t: nat)
    requires s <= e < buf.Length && buf[e] == NUL
    ensures s <= t <= e && buf[t..e] == LeftTrim(buf[s..e])
  {
    t := s;
    while IsSpace(buf[t])
      invariant s <= t <= e && forall i :: s <= i < t ==> IsSpace(buf[i])
      decreases e - t
    {
      t := t + 1;
    }
    ghost var text := buf[s..e];
    SpaceEndIs(text, 0, t - s);
    assert text[t - s..] == buf[t..e];
  }

  datatype WriteResult = Written | Overflow | Failed(code: int)

  class Packet {
    var cmd: char
    var subCmd: char
    var count: nat
    const buf: array<char>
    var len: nat
    const field: array<int>

    ghost predicate Valid() {
      buf.Length == WU_STRLEN && field.Length == WU_NUM_FIELDS
    }

    constructor (cmd: char, subCmd: char, count: nat)
      ensures Valid() && fresh(buf) && fresh(field)
      ensures this.cmd == cmd && this.subCmd == subCmd && this.count == count
    {
      this.cmd, this.subCmd, this.count := cmd, subCmd, count;
      buf := new char[WU_STRLEN];
      field := new int[WU_NUM_FIELDS];
      len := 0;
    }

    // Prints the packet and its fields into the buffer and hands it to write(), whose answer
    // is given.
    method Write(fields: seq<seq<char>>, answer: int) returns (r: WriteResult)
      requires Valid() && count == |fields| <= WU_NUM_FIELDS
      requires forall f :: f in fields ==> IsCString(f)
      modifies buf, this`len
      ensures r == Overflow <==> |Rendered(cmd, subCmd, fields)| > 253
      ensures r != Overflow ==>
                && len == |Rendered(cmd, subCmd, fields)|
                && buf[..len] == Rendered(cmd, subCmd, fields)
                && (forall k :: len <= k < 256 ==> buf[k] == NUL)
                && r == if answer >= 0 then Written else Failed(answer)
      ensures r == Overflow ==>
                exists i :: 0 <= i < count && |PrintedSoFar(cmd, subCmd, fields, i)| == len <= WU_STRLEN
                            && buf[..] == Padded(PrintedSoFar(cmd, subCmd, fields, i))
    {
      forall i | 0 <= i < buf.Length {
        buf[i] := NUL;
      }
      assert buf[..] == Padded([]);
      len := 0;
      DecimalShort(count);
      ghost var printed := Append([], Header(cmd, subCmd, count));
      assert fields[..0] == [] && printed == PrintedSoFar(cmd, subCmd, fields, 0);
      var i := 0;
      while i < count
        invariant i <= count && len == |printed| <= WU_STRLEN - 4
        invariant printed == PrintedSoFar(cmd, subCmd, fields, i) && buf[..] == Padded(printed)
      {
        if len + |fields[i]| + 4 >= WU_STRLEN {
          TooLong(cmd, subCmd, fields, i);
          return Overflow;
        }
        PrintedNext(cmd, subCmd, fields, i);
        printed := Append(printed, [','] + fields[i]);
        i := i + 1;
      }
      assert fields[..count] == fields;
      printed := Append(printed, [';']);
      return if answer >= 0 then Written else Failed(answer);
    }

    // sprintf at the end of what is printed.
    method Append(ghost before: seq<char>, text: seq<char>) returns (ghost after: seq<char>)
      requires Valid() && len == |before| && |before| + |text| < WU_STRLEN && buf[..] == Padded(before)
      modifies buf, this`len
      ensures after == before + text && len == |after| && buf[..] == Padded(after)
    {
      forall k | 0 <= k < |text| {
        buf[len + k] := text[k];
      }
      buf[len + |text|] := NUL;
      len := len + |text|;
      after := before + text;
      assert buf[..] == Padded(after);
    }

    // Takes the received text apart in place.
    method Parse() returns (ok: bool)
      requires Valid() && len < WU_STRLEN
      requires HasRoom(CStr(buf[..len]))
      modifies buf, field, this`cmd, this`subCmd, this`count
      ensures ok <==> ParseText(old(CStr(buf[..len]))).Good?
      ensures ok ==>
                var p := ParseText(old(CStr(buf[..len])));
                && cmd == p.cmd && subCmd == p.sub && count == p.count == |p.fields| <= WU_NUM_FIELDS
                && FieldsDone(buf[..], field[..], p.fields, count, buf.Length)
      ensures ok ==> forall i :: 0 <= i < count ==> 0 <= field[i] < buf.Length && NoSpaceFirst(buf[field[i]..])
      // Only the terminator and delimiters change, to NUL.
      ensures OnlyCuts(old(buf[..])[len := NUL], buf[..])
    {
      ghost var t := CStr(buf[..len]);
      buf[len] := NUL;
      assert buf[..][..|t|] == buf[..|t|] == t;
      ok := ParseTerminated(t);
      if ok {
        ParsedFieldsSendable(t);
        FieldsStart(buf[..], field[..], ParseText(t).fields, count);
      }
    }

    // The parser proper, on the string t that the buffer now starts with.
    method ParseTerminated(ghost t: seq<char>) returns (ok: bool)
      requires Valid() && |t| < buf.Length && t == buf[..|t|] && IsCString(t) && buf[|t|] == NUL
      requires HasRoom(t)
      modifies buf, field, this`cmd, this`subCmd, this`count
      ensures ok <==> ParseText(t).Good?
      ensures ok ==>
                var p := ParseText(t);
                && cmd == p.cmd && subCmd == p.sub && count == p.count == |p.fields| <= WU_NUM_FIELDS
                && FieldsDone(buf[..], field[..], p.fields, count, buf.Length)
      ensures OnlyCuts(old(buf[..]), buf[..])
    {
      var hash, first, second, third := ReadHeader(t);
      ParseLocated(t, hash, first, second, third);
      if third == NULL {
        return false;
      }
      ok := EndHeader(t, third);
    }

    // The command characters and the count.
    method ReadHeader(ghost t: seq<char>) returns (hash: int, first: int, second: int, third: int)
      requires Valid() && |t| < buf.Length && t == buf[..|t|] && IsCString(t) && buf[|t|] == NUL
      modifies this`cmd, this`subCmd, this`count
      ensures Located(t, hash, first, second, third)
      ensures third != NULL ==>
                && cmd == t[hash + 1] && subCmd == t[first + 1]
                && count == Atoi(t[second + 1..third]) % UINT_MODULUS
    {
      hash, first, second, third := Locate(buf, t);
      if hash == NULL || first == NULL {
        return;
      }
      cmd := buf[hash + 1];
      if second == NULL {
        return;
      }
      subCmd := buf[first + 1];
      if third == NULL {
        return;
      }
      count := ReadCount(buf, second + 1, third, t);
    }

    // Cuts the count off and takes the fields behind it apart.
    method EndHeader(ghost t: seq<char>, third: nat) returns (ok: bool)
      requires Valid() && third < |t| < buf.Length && t == buf[..|t|] && IsCString(t) && buf[|t|] == NUL
      requires t[third] == ',' && RoomFor(|Segments(t[third + 1..])|, count, field.Length)
      modifies buf, field
      ensures ok <==> |Segments(t[third + 1..])| >= count
      ensures ok ==>
                FieldsDone(buf[..], field[..], TrimAll(Segments(t[third + 1..])[..count]), count, buf.Length)
      ensures OnlyCuts(old(buf[..]), buf[..])
    {
      ghost var before := buf[..];
      ghost var rest := t[third + 1..];
      buf[third] := NUL;
      ghost var after := buf[..];
      assert t[third] == buf[..|t|][third] || buf[third] == NUL;
      OneCut(before, after, third + 1);
      assert buf[third + 1..|t|] == rest;
      ok := SplitFields(buf, third + 1, count, field, |t|, rest);
      CutsCompose(before, after, buf[..]);
      if ok {
        FieldsPrefix(buf[..], field[..], Segments(rest), count, |t| + 1);
      }
    }
  }

  lemma FieldsStart(buf: seq<char>, field: seq<int>, texts: seq<seq<char>>, count: nat)
    requires FieldsDone(buf, field, texts, count, |buf|) && count == |texts| && AllSendable(texts)
    ensures forall i :: 0 <= i < count ==> 0 <= field[i] < |buf| && NoSpaceFirst(buf[field[i]..])
  {
    forall i | 0 <= i < count
      ensures 0 <= field[i] < |buf| && NoSpaceFirst(buf[field[i]..])
    {
      assert StringAt(buf, field[i], texts[i]) && texts[i] in texts && Sendable(texts[i]);
      assert texts[i] != [] ==> buf[field[i]] == texts[i][0];
    }
  }

  lemma SliceOfPrefix(w: seq<char>, t: seq<char>, a: nat, b: nat)
    requires t <= w && a <= b <= |t|
    ensures w[a..b] == t[a..b]
  {
    forall k | a <= k < b
      ensures w[k] == t[k]
    {
    }
  }

  lemma FieldsPrefix(buf: seq<char>, field: seq<int>, segs: seq<seq<char>>, count: nat, limit: int)
    requires FieldsDone(buf, field, TrimAll(segs), count, limit) && limit <= |buf|
    ensures FieldsDone(buf, field, TrimAll(segs[..count]), count, |buf|)
  {
  }

  // What the positions of the header say about the whole text.
  lemma ParseLocated(t: seq<char>, hash: int, first: int, second: int, third: int)
    requires Located(t, hash, first, second, third)
    ensures third == NULL ==> ParseText(t) == Bad
    ensures third != NULL ==>
              var count := Atoi(t[second + 1..third]) % UINT_MODULUS;
              var segs := Segments(t[third + 1..]);
              && Announced(t) == count && Pieces(t) == |segs|
              && (|segs| < count ==> ParseText(t) == Bad)
              && (|segs| >= count ==> ParseText(t) == Good(t[hash + 1], t[first + 1], count, TrimAll(segs[..count])))
  {
    DissectLocated(t, hash, first, second, third);
  }

  // atoi of the text between two places.
  method ReadCount(buf: array<char>, a: nat, b: nat, ghost t: seq<char>) returns (count: nat)
    requires a <= b <= |t| < buf.Length && t == buf[..|t|]
    ensures count == Atoi(t[a..b]) % UINT_MODULUS
  {
    SliceOfPrefix(buf[..], t, a, b);
    var number := buf[a..b];
    assert number == t[a..b];
    count := Atoi(number) % UINT_MODULUS;
  }

  // The '#' and the three commas behind it; the parser looks for each where the last one ended.
  method Locate(buf: array<char>, ghost t: seq<char>) returns (hash: int, first: int, second: int, third: int)
    requires |t| < buf.Length && t == buf[..|t|] && IsCString(t) && buf[|t|] == NUL
    ensures Located(t, hash, first, second, third)
  {
    first, second, third := NULL, NULL, NULL;
    hash := Strchr(buf, 0, '#', t);
    if hash == NULL {
      return;
    }
    first := Strchr(buf, hash + 1, ',', t);
    if first == NULL {
      return;
    }
    second := Strchr(buf, first + 1, ',', t);
    if second == NULL {
      return;
    }
    third := Strchr(buf, second + 1, ',', t);
  }

  // Each of the four is the first after the one before; after a missing one all are missing.
  ghost predicate Located(t: seq<char>, hash: int, first: int, second: int, third: int) {
    && FirstAt(t, 0, '#', hash)
    && (if hash == NULL then first == NULL else FirstAt(t, hash + 1, ',', first))
    && (if first == NULL then second == NULL else FirstAt(t, first + 1, ',', second))
    && (if second == NULL then third == NULL else FirstAt(t, second + 1, ',', third))
  }

  // The cut a search from s makes.
  function SearchCut(t: seq<char>, s: int, r: int): Cut
    requires 0 <= s <= |t| && (r != NULL ==> s <= r < |t|)
  {
    if r == NULL then Whole else Parts(t[s..r], t[r + 1..])
  }

  lemma CutAtFirst(t: seq<char>, s: int, c: char, r: int, u: seq<char>)
    requires 0 <= s <= |t| && FirstAt(t, s, c, r) && u == t[s..]
    ensures CutAt(u, c) == SearchCut(t, s, r)
  {
    if r == NULL {
      CutAtMeaning(u, c);
    } else {
      assert u == t[s..r] + [c] + t[r + 1..];
      CutAtIs(t[s..r], c, t[r + 1..]);
    }
  }

  lemma ThenFirst(cut: Cut, t: seq<char>, last: int, next: int)
    requires last != NULL ==> 0 <= last < |t| && cut.Parts? && cut.after == t[last + 1..]
    requires last == NULL ==> cut == Whole && next == NULL
    requires last != NULL ==> FirstAt(t, last + 1, ',', next)
    ensures Then(cut, ',') == if last == NULL then Whole else SearchCut(t, last + 1, next)
  {
    if last != NULL {
      CutAtFirst(t, last + 1, ',', next, cut.after);
    }
  }

  // The positions found are those of the dissection.
  lemma DissectLocated(t: seq<char>, hash: int, first: int, second: int, third: int)
    requires Located(t, hash, first, second, third)
    ensures Dissect(t) == if third == NULL then Missing
                          else Anatomy(t[hash + 1..], t[first + 1..], t[second + 1..third], t[third + 1..])
  {
    CutAtFirst(t, 0, '#', hash, t);
    var cut := CutAt(t, '#');
    ThenFirst(cut, t, hash, first);
    var cut1 := Then(cut, ',');
    ThenFirst(cut1, t, first, second);
    var cut2 := Then(cut1, ',');
    ThenFirst(cut2, t, second, third);
  }

  // One turn of the last loop: ends the segment at s and skips its leading white space.
  method CutField(buf: array<char>, s: nat, ghost e: nat, ghost segs: seq<seq<char>>) returns (f: nat, next: int)
    requires s <= e < buf.Length && buf[e] == NUL && NoNul(buf, s, e)
    requires segs == Segments(buf[s..e])
    modifies buf
    ensures StringAt(buf[..], f, LeftTrim(segs[0]))
    ensures next == NULL ==> |segs| == 1 && buf[..] == old(buf[..]) && f + |LeftTrim(segs[0])| == e
    ensures next != NULL ==>
              && s < next <= e && IsDelimiter(old(buf[next - 1])) && buf[..] == old(buf[..])[next - 1 := NUL]
              && Segments(buf[next..e]) == segs[1..] && f + |LeftTrim(segs[0])| == next - 1
  {
    next := Strpbrk(buf, s, e);
    ghost var end := if next == NULL then e else next;
    ghost var segment := buf[s..end];
    assert segs[0] == segment;
    if next != NULL {
      ghost var after := buf[next + 1..e];
      buf[next] := NUL;
      assert buf[next + 1..e] == after && buf[s..end] == segment;
      next := next + 1;
    }
    f := SkipSpace(buf, s, end);
    StringFrom(buf[..], f, end, buf[f..end]);
  }

  // The first i texts are in place, all of them before the limit.
  ghost predicate FieldsDone(buf: seq<char>, field: seq<int>, texts: seq<seq<char>>, i: nat, limit: int) {
    && i <= |field| && i <= |texts|
    && forall j :: 0 <= j < i ==> StringAt(buf, field[j], texts[j]) && field[j] + |texts[j]| < limit
  }

  // Changes at or after the limit do not disturb them.
  lemma FieldsStay(before: seq<char>, after: seq<char>, field: seq<int>, texts: seq<seq<char>>, i: nat, limit: int,
                   f: int, limit': int)
    requires FieldsDone(before, field, texts, i, limit)
    requires 0 <= limit <= |before| == |after| && before[..limit] == after[..limit]
    requires i < |field| && i < |texts| && limit <= limit'
    requires StringAt(after, f, texts[i]) && f + |texts[i]| < limit'
    ensures FieldsDone(after, field[i := f], texts, i + 1, limit')
  {
    forall j | 0 <= j < i
      ensures StringAt(after, field[j], texts[j])
    {
      StringStays(before, after, field[j], texts[j], limit);
    }
  }

  // Of the given pieces the parser stores as many as are announced, or all but the last.
  predicate RoomFor(pieces: nat, count: nat, room: nat) {
    count <= room || pieces <= room || (pieces == room + 1 < count)
  }

  // One turn of the last loop of the parser: a field is cut off and stored, unless it is the last
  // piece and more are announced.
  method StoreField(buf: array<char>, field: array<int>, s: nat, i: nat, count: nat, ghost e: nat,
                    ghost left: seq<seq<char>>, ghost texts: seq<seq<char>>) returns (ok: bool, next: int)
    requires s <= e < buf.Length && buf[e] == NUL && NoNul(buf, s, e) && left == Segments(buf[s..e])
    requires i < count && i < |texts| && texts[i] == LeftTrim(left[0])
    requires FieldsDone(buf[..], field[..], texts, i, s) && (i < field.Length || (|left| == 1 && i < count - 1))
    modifies buf, field
    ensures ok <==> |left| > 1 || i == count - 1
    ensures ok ==>
              && FieldsDone(buf[..], field[..], texts, i + 1, if next == NULL then e + 1 else next)
              && (next == NULL <==> |left| == 1)
    ensures next != NULL ==> s < next <= e && NoNul(buf, next, e) && Segments(buf[next..e]) == left[1..]
    ensures buf[e] == NUL && OnlyCuts(old(buf[..]), buf[..])
  {
    ghost var before := buf[..];
    var f;
    f, next := CutField(buf, s, e, left);
    OneCut(before, buf[..], next);
    if next == NULL && i < count - 1 {
      return false, next;
    }
    FieldsStay(before, buf[..], field[..], texts, i, s, f, if next == NULL then e + 1 else next);
    field[i] := f;
    return true, next;
  }

  // The last loop of the parser.
  method SplitFields(buf: array<char>, start: nat, count: nat, field: array<int>, ghost e: nat,
                     ghost rest: seq<char>) returns (ok: bool)
    requires start <= e < buf.Length && buf[e] == NUL && NoNul(buf, start, e) && rest == buf[start..e]
    requires RoomFor(|Segments(rest)|, count, field.Length)
    modifies buf, field
    ensures ok <==> |Segments(rest)| >= count
    ensures ok ==> FieldsDone(buf[..], field[..], TrimAll(Segments(rest)), count, e + 1)
    ensures OnlyCuts(old(buf[..]), buf[..])
  {
    ghost var segs := Segments(rest);
    ghost var texts := TrimAll(segs);
    var s: int := start;
    var i := 0;
    while i < count
      invariant i <= count && i <= |segs| && (s == NULL ==> i == count)
      invariant s != NULL ==> start <= s <= e && NoNul(buf, s, e) && Segments(buf[s..e]) == segs[i..]
      invariant FieldsDone(buf[..], field[..], texts, i, if s == NULL then e + 1 else s) && buf[e] == NUL
      invariant OnlyCuts(old(buf[..]), buf[..])
    {
      ghost var before, left := buf[..], segs[i..];
      assert left[0] == segs[i] && left[1..] == segs[i + 1..];
      ok, s := StoreField(buf, field, s, i, count, e, left, texts);
      CutsCompose(old(buf[..]), before, buf[..]);
      if !ok {
        return;
      }
      i := i + 1;
    }
    return true;
  }

  // ---------- The printer ----------

  // A text in the buffer, everything behind it zero.
  ghost function Padded(s: seq<char>): (b: seq<char>)
    requires |s| <= WU_STRLEN
    ensures |b| == WU_STRLEN
  {
    s + seq(WU_STRLEN - |s|, _ => NUL)
  }

  // The text after the first i fields.
  ghost function PrintedSoFar(cmd: char, sub: char, fields: seq<seq<char>>, i: nat): seq<char>
    requires i <= |fields|
  {
    Header(cmd, sub, |fields|) + Joined(fields[..i])
  }

  lemma PrintedNext(cmd: char, sub: char, fields: seq<seq<char>>, i: nat)
    requires i < |fields|
    ensures PrintedSoFar(cmd, sub, fields, i + 1) == PrintedSoFar(cmd, sub, fields, i) + ([','] + fields[i])
  {
    JoinedSnoc(fields, i);
  }

  lemma DecimalShort(n: nat)
    requires n <= WU_NUM_FIELDS
    ensures |Decimal(n)| <= 2
  {
  }

  lemma {:induction false} JoinedSnoc(fields: seq<seq<char>>, i: nat)
    requires i < |fields|
    ensures Joined(fields[..i + 1]) == Joined(fields[..i]) + ([','] + fields[i])
  {
    if i == 0 {
      assert fields[..1] == [fields[0]] && Joined(fields[..1]) == [','] + (fields[0] + []);
    } else {
      JoinedSnoc(fields[1..], i - 1);
      assert fields[..i + 1][1..] == fields[1..][..i] && fields[..i][1..] == fields[1..][..i - 1];
    }
  }

  // Once a field does not fit, the whole text is too long.
  lemma {:induction false} TooLong(cmd: char, sub: char, fields: seq<seq<char>>, i: nat)
    requires i < |fields| && |PrintedSoFar(cmd, sub, fields, i)| + |fields[i]| + 4 >= WU_STRLEN
    ensures |Rendered(cmd, sub, fields)| > WU_STRLEN - 3
  {
    PrintedNext(cmd, sub, fields, i);
    JoinedGrows(fields, i + 1);
  }

  lemma {:induction false} JoinedGrows(fields: seq<seq<char>>, i: nat)
    requires i <= |fields|
    ensures |Joined(fields[..i])| <= |Joined(fields)|
    decreases |fields| - i
  {
    if i < |fields| {
      JoinedSnoc(fields, i);
      JoinedGrows(fields, i + 1);
    } else {
      assert fields[..i] == fields;
    }
  }
}
