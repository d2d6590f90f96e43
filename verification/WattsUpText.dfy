// The text protocol of the Watts Up? meter, as functions on strings: what a packet looks like
// on the line and what a received text means.
module WattsUpText {
  import opened CStrings

  const WU_STRLEN := 256
  const WU_NUM_FIELDS := 18
  const UINT_MODULUS := 0x1_0000_0000

  // ---------- Decimal numbers ----------

  predicate IsDigit(c: char) {
    '0' <= c <= '9'
  }

  function Decimal(n: nat): (s: seq<char>)
    ensures |s| >= 1 && forall c :: c in s ==> IsDigit(c)
  {
    if n < 10 then ['0' + n as char] else Decimal(n / 10) + ['0' + (n % 10) as char]
  }

  // The longest prefix of digits.
  function DigitPrefix(s: seq<char>): (d: seq<char>)
    ensures d <= s && forall c :: c in d ==> IsDigit(c)
  {
    if s == [] || !IsDigit(s[0]) then [] else [s[0]] + DigitPrefix(s[1..])
  }

  function Value(d: seq<char>): int {
    if d == [] then 0 else Value(d[..|d| - 1]) * 10 + (d[|d| - 1] as int - '0' as int)
  }

  // The white space of isspace(): blank, tabulators, line feed, form feed, carriage return.
  predicate IsSpace(c: char): (b: bool)
    ensures b <==> c == ' ' || c == '\t' || c == '\n' || c == '\U{000B}' || c == '\U{000C}' || c == '\r'
  {
    c == ' ' || '\t' <= c <= '\r'
  }

  // The first place from i on that is no white space, or the end.
  function SpaceEnd(s: seq<char>, i: nat): (r: nat)
    requires i <= |s|
    ensures i <= r <= |s|
    decreases |s| - i
  {
    if i < |s| && IsSpace(s[i]) then SpaceEnd(s, i + 1) else i
  }

  function LeftTrim(s: seq<char>): seq<char> {
    s[SpaceEnd(s, 0)..]
  }

  lemma {:induction false} SpaceEndIs(s: seq<char>, i: nat, r: nat)
    requires i <= r <= |s| && (forall k :: i <= k < r ==> IsSpace(s[k])) && (r < |s| ==> !IsSpace(s[r]))
    ensures SpaceEnd(s, i) == r
    decreases r - i
  {
    if i < r {
      SpaceEndIs(s, i + 1, r);
    }
  }

  lemma {:induction false} SpaceEndMeaning(s: seq<char>, i: nat)
    requires i <= |s|
    ensures forall k :: i <= k < SpaceEnd(s, i) ==> IsSpace(s[k])
    ensures SpaceEnd(s, i) < |s| ==> !IsSpace(s[SpaceEnd(s, i)])
    decreases |s| - i
  {
    if i < |s| && IsSpace(s[i]) {
      SpaceEndMeaning(s, i + 1);
    }
  }

  // f is what is left of s when all its leading white space is dropped.
  predicate IsTrimmed(f: seq<char>, s: seq<char>) {
    && |f| <= |s| && f == s[|s| - |f|..]
    && (forall i :: 0 <= i < |s| - |f| ==>
          s[i] == ' ' || s[i] == '\t' || s[i] == '\n' || s[i] == '\U{000B}' || s[i] == '\U{000C}' || s[i] == '\r')
    && NoSpaceFirst(f)
  }

  predicate NoSpaceFirst(f: seq<char>) {
    f != [] ==>
      && f[0] != ' ' && f[0] != '\t' && f[0] != '\n'
      && f[0] != '\U{000B}' && f[0] != '\U{000C}' && f[0] != '\r'
  }

  lemma LeftTrimMeaning(s: seq<char>)
    ensures IsTrimmed(LeftTrim(s), s)
  {
    SpaceEndMeaning(s, 0);
  }

  function Atoi(s: seq<char>): int {
    var t := LeftTrim(s);
    if t != [] && t[0] == '-' then -Value(DigitPrefix(t[1..]))
    else if t != [] && t[0] == '+' then Value(DigitPrefix(t[1..]))
    else Value(DigitPrefix(t))
  }

  lemma {:induction false} DecimalValue(n: nat)
    ensures Value(Decimal(n)) == n
  {
    if n >= 10 {
      DecimalValue(n / 10);
      assert Decimal(n)[..|Decimal(n)| - 1] == Decimal(n / 10);
    }
  }

  lemma {:induction false} DigitPrefixAll(d: seq<char>)
    requires forall c :: c in d ==> IsDigit(c)
    ensures DigitPrefix(d) == d
  {
    if d != [] {
      DigitPrefixAll(d[1..]);
    }
  }

  lemma AtoiDecimal(n: nat)
    ensures Atoi(Decimal(n)) == n
  {
    var d := Decimal(n);
    assert d[0] in d;
    DecimalValue(n);
    DigitPrefixAll(d);
  }

  // The digits are those of the decimal notation, and only zero starts with a zero.
  lemma {:induction false} DecimalMeaning(n: nat)
    ensures n < 10 ==> Decimal(n) == ["0123456789"[n]]
    ensures n >= 10 ==> Decimal(n) == Decimal(n / 10) + ["0123456789"[n % 10]]
    ensures Decimal(n)[0] == '0' <==> n == 0
  {
    assert forall d: nat :: d < 10 ==> "0123456789"[d] == '0' + d as char;
    if n >= 10 {
      DecimalMeaning(n / 10);
    }
  }

  // atoi: white space, a sign, and the digits up to anything else.
  lemma AtoiMeaning(space: seq<char>, sign: seq<char>, n: nat, rest: seq<char>)
    requires forall c :: c in space ==> IsSpace(c)
    requires sign == "" || sign == "+" || sign == "-"
    requires rest != [] ==> !('0' <= rest[0] <= '9')
    ensures Atoi(space + (sign + (Decimal(n) + rest))) == if sign == "-" then -(n as int) else n
  {
    AtoiNumber(n, rest);
    if sign == "" {
      assert sign + (Decimal(n) + rest) == Decimal(n) + rest;
    } else {
      AtoiSigned(sign[0], n, rest);
      assert sign == [sign[0]];
    }
    AtoiSpace(space, sign + (Decimal(n) + rest));
  }

  lemma AtoiSpace(space: seq<char>, t: seq<char>)
    requires forall c :: c in space ==> IsSpace(c)
    requires t != [] ==> !IsSpace(t[0])
    ensures Atoi(space + t) == Atoi(t)
  {
    TrimApart(space, t);
  }

  lemma AtoiNumber(n: nat, rest: seq<char>)
    requires rest != [] ==> !('0' <= rest[0] <= '9')
    ensures Atoi(Decimal(n) + rest) == n && IsDigit((Decimal(n) + rest)[0])
  {
    var d := Decimal(n);
    assert d[0] in d && (d + rest)[0] == d[0];
    DigitPrefixThen(d, rest);
    DecimalValue(n);
  }

  lemma AtoiSigned(sign: char, n: nat, rest: seq<char>)
    requires sign == '+' || sign == '-'
    requires rest != [] ==> !('0' <= rest[0] <= '9')
    ensures Atoi([sign] + (Decimal(n) + rest)) == if sign == '-' then -(n as int) else n
  {
    var t := [sign] + (Decimal(n) + rest);
    assert t[0] == sign && t[1..] == Decimal(n) + rest;
    DigitPrefixThen(Decimal(n), rest);
    DecimalValue(n);
  }

  // Without digits it is zero.
  lemma AtoiOfNothing(space: seq<char>, rest: seq<char>)
    requires forall c :: c in space ==> IsSpace(c)
    requires rest != [] ==> !('0' <= rest[0] <= '9') && !IsSpace(rest[0]) && rest[0] != '+' && rest[0] != '-'
    ensures Atoi(space + rest) == 0
  {
    TrimApart(space, rest);
    assert DigitPrefix(rest) == [];
  }

  lemma TrimApart(space: seq<char>, rest: seq<char>)
    requires forall c :: c in space ==> IsSpace(c)
    requires rest != [] ==> !IsSpace(rest[0])
    ensures LeftTrim(space + rest) == rest
  {
    SpaceEndIs(space + rest, 0, |space|);
  }

  lemma {:induction false} DigitPrefixThen(d: seq<char>, rest: seq<char>)
    requires forall c :: c in d ==> IsDigit(c)
    requires rest != [] ==> !('0' <= rest[0] <= '9')
    ensures DigitPrefix(d + rest) == d
  {
    if d == [] {
      assert d + rest == rest;
    } else {
      assert (d + rest)[1..] == d[1..] + rest;
      DigitPrefixThen(d[1..], rest);
    }
  }

  // ---------- What is sent ----------

  // Every field after a comma.
  function Joined(fields: seq<seq<char>>): (s: seq<char>) {
    if fields == [] then [] else [','] + (fields[0] + Joined(fields[1..]))
  }

  function Header(cmd: char, sub: char, count: nat): seq<char> {
    ['#', cmd, ',', sub, ','] + Decimal(count)
  }

  function Rendered(cmd: char, sub: char, fields: seq<seq<char>>): seq<char> {
    Header(cmd, sub, |fields|) + Joined(fields) + [';']
  }

  // The text of a packet, piece by piece.
  lemma RenderedMeaning(cmd: char, sub: char, fields: seq<seq<char>>)
    ensures Rendered(cmd, sub, fields) == ['#', cmd, ',', sub, ','] + Decimal(|fields|) + Joined(fields) + [';']
    ensures Joined([]) == []
    ensures fields != [] ==> Joined(fields) == [','] + (fields[0] + Joined(fields[1..]))
  {
  }

  // ---------- What a received text means ----------

  datatype Parsed = Bad | Good(cmd: char, sub: char, count: nat, fields: seq<seq<char>>)

  datatype Cut = Whole | Parts(before: seq<char>, after: seq<char>)

  // What stands before and after the first c.
  function CutAt(t: seq<char>, c: char): Cut {
    if t == [] then Whole
    else if t[0] == c then Parts([], t[1..])
    else
      match CutAt(t[1..], c)
      case Whole => Whole
      case Parts(b, a) => Parts([t[0]] + b, a)
  }

  lemma ConsCut(first: char, before: seq<char>, c: char, after: seq<char>)
    requires first != c && c !in before
    ensures [first] + (before + [c] + after) == [first] + before + [c] + after && c !in [first] + before
  {
  }

  lemma {:induction false} CutAtMeaning(t: seq<char>, c: char)
    ensures CutAt(t, c).Whole? <==> c !in t
    ensures CutAt(t, c).Parts? ==>
              t == CutAt(t, c).before + [c] + CutAt(t, c).after && c !in CutAt(t, c).before
  {
    if t != [] && t[0] != c {
      var rest := t[1..];
      CutAtMeaning(rest, c);
      var cut := CutAt(rest, c);
      assert t == [t[0]] + rest;
      if cut.Parts? {
        ConsCut(t[0], cut.before, c, cut.after);
      }
    }
  }

  predicate IsDelimiter(c: char) {
    c == ',' || c == ';'
  }

  // The pieces of t, cut at every comma and semicolon.
  function Segments(t: seq<char>): (segs: seq<seq<char>>)
    ensures |segs| >= 1
  {
    if t == [] then [[]]
    else if IsDelimiter(t[0]) then [[]] + Segments(t[1..])
    else
      var rest := Segments(t[1..]);
      [[t[0]] + rest[0]] + rest[1..]
  }

  // A text taken apart: the part from the command on, the part from the sub-command on, the
  // count's digits, and everything behind the third comma.
  datatype Anatomy = Missing | Anatomy(command: seq<char>, subCommand: seq<char>, count: seq<char>, rest: seq<char>)

  // The next cut, in what the last one left.
  function Then(cut: Cut, c: char): (r: Cut)
    ensures r.Parts? ==> cut.Parts? && cut.after != []
  {
    if cut.Whole? then Whole else CutAt(cut.after, c)
  }

  function Dissect(t: seq<char>): (a: Anatomy)
    ensures a.Anatomy? ==> a.command != [] && a.subCommand != []
  {
    var hash := CutAt(t, '#');
    var first := Then(hash, ',');
    var second := Then(first, ',');
    var third := Then(second, ',');
    if third.Whole? then Missing else Anatomy(hash.after, first.after, third.before, third.after)
  }

  // The number of fields a text announces.
  function Announced(t: seq<char>): nat {
    var a := Dissect(t);
    if a.Missing? then 0 else Atoi(a.count) % UINT_MODULUS
  }

  // The number of pieces its fields are made of.
  function Pieces(t: seq<char>): nat {
    var a := Dissect(t);
    if a.Missing? then 0 else |Segments(a.rest)|
  }

  // A packet has room for the fields the parser stores: all announced, or, when there are fewer
  // pieces, those before the last.
  predicate HasRoom(t: seq<char>) {
    Announced(t) <= WU_NUM_FIELDS || Pieces(t) <= WU_NUM_FIELDS || (Pieces(t) == WU_NUM_FIELDS + 1 < Announced(t))
  }

  function TrimAll(segs: seq<seq<char>>): (ts: seq<seq<char>>)
    ensures |ts| == |segs|
    ensures forall i :: 0 <= i < |segs| ==> ts[i] == LeftTrim(segs[i])
  {
    seq(|segs|, i requires 0 <= i < |segs| => LeftTrim(segs[i]))
  }

  // The packet a text stands for: command, sub-command, count, then that many segments.
  function ParseText(t: seq<char>): Parsed {
    var a := Dissect(t);
    if a.Missing? then Bad
    else
      var segs := Segments(a.rest);
      if |segs| < Announced(t) then Bad
      else Good(a.command[0], a.subCommand[0], Announced(t), TrimAll(segs[..Announced(t)]))
  }

  // Every text with a header: what each part of it is taken for.
  lemma ParseMeaning(noise: seq<char>, command: seq<char>, sub: seq<char>, number: seq<char>, rest: seq<char>)
    requires '#' !in noise && ',' !in command && ',' !in sub && ',' !in number
    ensures var p := ParseText(WithHeader(noise, command, sub, number, rest));
            var count, segs := Atoi(number) % 0x1_0000_0000, Segments(rest);
            && (p.Good? <==> |segs| >= count)
            && (p.Good? ==>
                  && p.cmd == (command + [','])[0] && p.sub == (sub + [','])[0] && p.count == count == |p.fields|
                  && forall i :: 0 <= i < count ==> IsTrimmed(p.fields[i], segs[i]))
  {
    var t := WithHeader(noise, command, sub, number, rest);
    var behindSub := number + [','] + rest;
    var behindCommand := sub + [','] + behindSub;
    CutAtIs(noise, '#', command + [','] + behindCommand);
    CutAtIs(command, ',', behindCommand);
    CutAtIs(sub, ',', behindSub);
    CutAtIs(number, ',', rest);
    var p := ParseText(t);
    if p.Good? {
      forall i | 0 <= i < |p.fields|
        ensures IsTrimmed(p.fields[i], Segments(rest)[i])
      {
        LeftTrimMeaning(Segments(rest)[i]);
      }
    }
  }

  function WithHeader(noise: seq<char>, command: seq<char>, sub: seq<char>, number: seq<char>, rest: seq<char>)
    : seq<char>
  {
    noise + ['#'] + (command + [','] + (sub + [','] + (number + [','] + rest)))
  }

  // A text that has none, for lack of a '#' or of three commas behind it, is no packet.
  lemma NoHeader(t: seq<char>)
    requires '#' !in t || exists noise, body :: t == noise + ['#'] + body && '#' !in noise && multiset(body)[','] < 3
    ensures ParseText(t) == Bad
  {
    CutAtMeaning(t, '#');
    if '#' in t {
      var noise, body :| t == noise + ['#'] + body && '#' !in noise && multiset(body)[','] < 3;
      CutAtIs(noise, '#', body);
      ThenFewer(CutAt(t, '#'));
      var first := Then(CutAt(t, '#'), ',');
      ThenFewer(first);
      ThenFewer(Then(first, ','));
    }
  }

  // A cut at a comma leaves one comma fewer behind it.
  lemma ThenFewer(cut: Cut)
    ensures Then(cut, ',').Parts? ==> multiset(cut.after)[','] == multiset(Then(cut, ',').after)[','] + 1
  {
    if cut.Parts? {
      CutAtMeaning(cut.after, ',');
      var c := CutAt(cut.after, ',');
      if c.Parts? {
        assert cut.after == c.before + [','] + c.after;
        assert multiset(c.before)[','] == 0;
      }
    }
  }

  // ---------- Parsing what was rendered ----------

  lemma {:induction false} CutAtIs(before: seq<char>, c: char, after: seq<char>)
    requires c !in before
    ensures CutAt(before + [c] + after, c) == Parts(before, after)
  {
    var t := before + [c] + after;
    if before != [] {
      assert t[1..] == before[1..] + [c] + after;
      CutAtIs(before[1..], c, after);
    } else {
      assert t == [c] + after;
    }
  }

  lemma {:induction false} SegmentsCons(f: seq<char>, d: char, rest: seq<char>)
    requires (d == ',' || d == ';') && forall c :: c in f ==> c != ',' && c != ';'
    ensures Segments(f + [d] + rest) == [f] + Segments(rest)
  {
    var t := f + [d] + rest;
    if f != [] {
      assert t[1..] == f[1..] + [d] + rest && t[0] == f[0] && f[0] in f;
      assert forall c :: c in f[1..] ==> c in f;
      SegmentsCons(f[1..], d, rest);
      assert ([f[1..]] + Segments(rest))[1..] == Segments(rest);
      assert [f[0]] + f[1..] == f;
    } else {
      assert t == [d] + rest;
    }
  }

  lemma {:induction false} SegmentsLast(f: seq<char>)
    requires forall c :: c in f ==> c != ',' && c != ';'
    ensures Segments(f) == [f]
  {
    if f != [] {
      assert f[0] in f && forall c :: c in f[1..] ==> c in f;
      SegmentsLast(f[1..]);
      assert [f[0]] + f[1..] == f;
    }
  }

  // A field that survives: no delimiter in it and no leading white space.
  predicate Sendable(f: seq<char>) {
    (forall c :: c in f ==> c != ',' && c != ';') && NoSpaceFirst(f)
  }

  ghost predicate AllSendable(fields: seq<seq<char>>) {
    forall f :: f in fields ==> Sendable(f)
  }

  ghost predicate AllCStrings(fields: seq<seq<char>>) {
    forall f :: f in fields ==> IsCString(f)
  }

  // Rendered fields without the first comma, closed and followed by more text.
  function FieldsText(fields: seq<seq<char>>, tail: seq<char>): seq<char>
    requires fields != []
  {
    if |fields| == 1 then fields[0] + [';'] + tail
    else fields[0] + [','] + FieldsText(fields[1..], tail)
  }

  lemma {:induction false} JoinedIsFieldsText(fields: seq<seq<char>>, tail: seq<char>)
    requires fields != []
    ensures Joined(fields) + ([';'] + tail) == [','] + FieldsText(fields, tail)
  {
    var f, rest := fields[0], fields[1..];
    var end := [';'] + tail;
    Regroup([','], f, Joined(rest), end);
    if rest == [] {
      assert Joined(rest) + end == end && f + end == f + [';'] + tail;
    } else {
      JoinedIsFieldsText(rest, tail);
      assert f + ([','] + FieldsText(rest, tail)) == f + [','] + FieldsText(rest, tail);
    }
  }

  lemma Regroup(a: seq<char>, b: seq<char>, c: seq<char>, d: seq<char>)
    ensures a + (b + c) + d == a + (b + (c + d))
  {
  }

  // The rendered fields are the first segments.
  lemma {:induction false} FieldsSegments(fields: seq<seq<char>>, tail: seq<char>)
    requires fields != [] && AllSendable(fields)
    ensures |Segments(FieldsText(fields, tail))| >= |fields|
    ensures Segments(FieldsText(fields, tail))[..|fields|] == fields
  {
    var f, rest := fields[0], fields[1..];
    assert f in fields && fields == [f] + rest;
    if rest == [] {
      SegmentsCons(f, ';', tail);
    } else {
      assert AllSendable(rest);
      SegmentsCons(f, ',', FieldsText(rest, tail));
      FieldsSegments(rest, tail);
    }
  }

  // A header in front of some text, between noise and that text.
  lemma DissectHeader(noise: seq<char>, cmd: char, sub: char, count: nat, more: seq<char>)
    requires '#' !in noise && cmd != ',' && sub != ','
    ensures var t := noise + (Header(cmd, sub, count) + more);
            Found(Dissect(t), cmd, sub, CutAt(Decimal(count) + more, ','))
  {
    var numbers := Decimal(count) + more;
    var subCommand := [sub] + [','] + numbers;
    var command := [cmd] + [','] + subCommand;
    assert noise + (Header(cmd, sub, count) + more) == noise + ['#'] + command;
    CutAtIs(noise, '#', command);
    CutAtIs([cmd], ',', subCommand);
    CutAtIs([sub], ',', numbers);
  }

  lemma RenderedThen(noise: seq<char>, cmd: char, sub: char, fields: seq<seq<char>>, tail: seq<char>)
    ensures noise + Rendered(cmd, sub, fields) + tail
            == noise + (Header(cmd, sub, |fields|) + (Joined(fields) + ([';'] + tail)))
  {
    var h, j := Header(cmd, sub, |fields|), Joined(fields);
    Assoc(noise, h + j + [';'], tail);
    Assoc(h + j, [';'], tail);
    Assoc(h, j, [';'] + tail);
  }

  lemma Assoc(a: seq<char>, b: seq<char>, c: seq<char>)
    ensures a + b + c == a + (b + c)
  {
  }

  // What dissecting finds in a header with text behind it, given where that text is cut.
  ghost predicate Found(a: Anatomy, cmd: char, sub: char, cut: Cut) {
    match cut
    case Whole => a.Missing?
    case Parts(number, rest) =>
      a.Anatomy? && a.command != [] && a.command[0] == cmd && a.subCommand != [] && a.subCommand[0] == sub
      && a.count == number && a.rest == rest
  }

  lemma CutRenderedFields(fields: seq<seq<char>>, tail: seq<char>)
    requires fields != []
    ensures CutAt(Decimal(|fields|) + (Joined(fields) + ([';'] + tail)), ',')
            == Parts(Decimal(|fields|), FieldsText(fields, tail))
  {
    var number, rest := Decimal(|fields|), FieldsText(fields, tail);
    JoinedIsFieldsText(fields, tail);
    assert number + ([','] + rest) == number + [','] + rest;
    CutAtIs(number, ',', rest);
  }

  lemma CutNoFields(tail: seq<char>)
    ensures CutAt(Decimal(0) + (Joined([]) + ([';'] + tail)), ',')
            == match CutAt(tail, ',')
               case Whole => Whole
               case Parts(before, after) => Parts(['0'] + ([';'] + before), after)
  {
    var t := [';'] + tail;
    assert Decimal(0) == ['0'];
    assert Decimal(0) + (Joined([]) + t) == ['0'] + t;
    assert t[1..] == tail && (['0'] + t)[1..] == t;
  }

  lemma DissectRendered(noise: seq<char>, cmd: char, sub: char, fields: seq<seq<char>>, tail: seq<char>)
    requires '#' !in noise && cmd != ',' && sub != ','
    ensures Found(Dissect(noise + Rendered(cmd, sub, fields) + tail), cmd, sub,
                  CutAt(Decimal(|fields|) + (Joined(fields) + ([';'] + tail)), ','))
  {
    RenderedThen(noise, cmd, sub, fields, tail);
    DissectHeader(noise, cmd, sub, |fields|, Joined(fields) + ([';'] + tail));
  }

  // The protocol law: whatever noise stands before and text behind it, a rendered packet of at
  // least one field is parsed back exactly if its characters are no commas and its fields are
  // sendable.
  lemma ParseRendered(noise: seq<char>, cmd: char, sub: char, fields: seq<seq<char>>, tail: seq<char>)
    requires '#' !in noise && 1 <= |fields| < UINT_MODULUS
    ensures ParseText(noise + Rendered(cmd, sub, fields) + tail) == Good(cmd, sub, |fields|, fields)
            <==> cmd != ',' && sub != ',' && AllSendable(fields)
  {
    var t := noise + Rendered(cmd, sub, fields) + tail;
    if cmd == ',' || sub == ',' {
      RenderedThen(noise, cmd, sub, fields, tail);
      CommaInHeader(noise, cmd, sub, |fields|, Joined(fields) + ([';'] + tail), fields);
    } else if AllSendable(fields) {
      SendableParsed(noise, cmd, sub, fields, tail);
    } else {
      ParsedFieldsSendable(t);
    }
  }

  lemma SendableParsed(noise: seq<char>, cmd: char, sub: char, fields: seq<seq<char>>, tail: seq<char>)
    requires '#' !in noise && cmd != ',' && sub != ','
    requires 1 <= |fields| < UINT_MODULUS && AllSendable(fields)
    ensures ParseText(noise + Rendered(cmd, sub, fields) + tail) == Good(cmd, sub, |fields|, fields)
  {
    DissectRendered(noise, cmd, sub, fields, tail);
    CutRenderedFields(fields, tail);
    FieldsSegments(fields, tail);
    AtoiDecimal(|fields|);
    ParseFound(noise + Rendered(cmd, sub, fields) + tail, cmd, sub, Decimal(|fields|), FieldsText(fields, tail),
               fields);
  }

  lemma {:induction false} SegmentsClean(t: seq<char>)
    ensures forall g, c :: g in Segments(t) && c in g ==> c != ',' && c != ';'
  {
    if t != [] {
      SegmentsClean(t[1..]);
      var rest := Segments(t[1..]);
      assert rest == [rest[0]] + rest[1..];
    }
  }

  // Nothing but sendable fields is ever parsed.
  lemma ParsedFieldsSendable(t: seq<char>)
    ensures ParseText(t).Good? ==> AllSendable(ParseText(t).fields)
  {
    var p := ParseText(t);
    if p.Good? {
      var segs := Segments(Dissect(t).rest);
      SegmentsClean(Dissect(t).rest);
      forall f | f in p.fields
        ensures Sendable(f)
      {
        var i :| 0 <= i < |p.fields| && p.fields[i] == f;
        LeftTrimMeaning(segs[i]);
        assert segs[i] in segs && f == LeftTrim(segs[i]);
        assert forall c :: c in f ==> c in segs[i];
      }
    }
  }

  // A comma for a command or sub-command character shifts the header: another sub-command is read,
  // or no count.
  lemma CommaInHeader(noise: seq<char>, cmd: char, sub: char, count: nat, more: seq<char>, fields: seq<seq<char>>)
    requires '#' !in noise && (cmd == ',' || sub == ',') && |fields| >= 1
    ensures ParseText(noise + (Header(cmd, sub, count) + more)) != Good(cmd, sub, |fields|, fields)
  {
    HeaderApart(noise, cmd, sub, count, more);
    CommaShifts(noise, cmd, sub, Decimal(count) + more, fields);
  }

  lemma HeaderApart(noise: seq<char>, cmd: char, sub: char, count: nat, more: seq<char>)
    ensures noise + (Header(cmd, sub, count) + more)
            == noise + ['#'] + ([cmd, ',', sub, ','] + (Decimal(count) + more))
  {
    var d := Decimal(count);
    assert Header(cmd, sub, count) + more == ['#'] + ([cmd, ',', sub, ','] + (d + more));
  }

  lemma CommaShifts(noise: seq<char>, cmd: char, sub: char, numbers: seq<char>, fields: seq<seq<char>>)
    requires '#' !in noise && (cmd == ',' || sub == ',') && |fields| >= 1
    ensures ParseText(noise + ['#'] + ([cmd, ',', sub, ','] + numbers)) != Good(cmd, sub, |fields|, fields)
  {
    if cmd == ',' {
      CommaCommand(noise, sub, [sub, ','] + numbers, fields);
      assert [cmd, ',', sub, ','] + numbers == [','] + ([','] + ([sub, ','] + numbers));
    } else {
      CommaSubCommand(noise, cmd, [','] + numbers, fields);
      assert [cmd, ',', sub, ','] + numbers == [cmd] + [','] + ([','] + ([','] + numbers));
    }
  }

  lemma CommaCommand(noise: seq<char>, sub: char, behind: seq<char>, fields: seq<seq<char>>)
    requires '#' !in noise && |fields| >= 1 && behind != [] && behind[0] == sub
    ensures ParseText(noise + ['#'] + ([','] + ([','] + behind))) != Good(',', sub, |fields|, fields)
  {
    CutAtIs(noise, '#', [','] + ([','] + behind));
    FirstComma([','] + behind, [','] + ([','] + behind));
    FirstComma(behind, [','] + behind);
    NoCount(behind);
  }

  lemma CommaSubCommand(noise: seq<char>, cmd: char, behind: seq<char>, fields: seq<seq<char>>)
    requires '#' !in noise && cmd != ',' && |fields| >= 1 && behind != [] && behind[0] == ','
    ensures ParseText(noise + ['#'] + ([cmd] + [','] + ([','] + behind))) != Good(cmd, ',', |fields|, fields)
  {
    CutAtIs(noise, '#', [cmd] + [','] + ([','] + behind));
    CutAtIs([cmd], ',', [','] + behind);
    FirstComma(behind, [','] + behind);
    NoCount(behind);
  }

  // Text that starts with a comma where the count is expected.
  lemma NoCount(s: seq<char>)
    ensures s != [] && s[0] == ',' ==> CutAt(s, ',').Parts? && CutAt(s, ',').before == [] && Atoi([]) == 0
  {
    if s != [] && s[0] == ',' {
      assert s == [','] + s[1..];
      FirstComma(s[1..], s);
    }
  }

  lemma FirstComma(rest: seq<char>, all: seq<char>)
    requires all == [','] + rest
    ensures CutAt(all, ',') == Parts([], rest)
  {
    assert all == [] + [','] + rest;
    CutAtIs([], ',', rest);
  }

  lemma ParseFound(t: seq<char>, cmd: char, sub: char, number: seq<char>, rest: seq<char>, fields: seq<seq<char>>)
    requires Atoi(number) == |fields| < UINT_MODULUS && AllSendable(fields)
    requires Found(Dissect(t), cmd, sub, Parts(number, rest))
    requires |Segments(rest)| >= |fields| && Segments(rest)[..|fields|] == fields
    ensures ParseText(t) == Good(cmd, sub, |fields|, fields)
  {
    SmallCount(|fields|);
    SendableUntrimmed(fields);
  }

  lemma SmallCount(n: nat)
    requires n < UINT_MODULUS
    ensures n % UINT_MODULUS == n
  {
  }

  lemma SendableUntrimmed(fields: seq<seq<char>>)
    requires AllSendable(fields)
    ensures TrimAll(fields) == fields
  {
    forall i | 0 <= i < |fields|
      ensures TrimAll(fields)[i] == fields[i]
    {
      assert fields[i] in fields;
    }
  }

  // A command without parameters is taken for a packet exactly when a comma happens to follow
  // it; on its own it is always rejected.
  lemma ParseZeroCount(noise: seq<char>, cmd: char, sub: char, tail: seq<char>)
    requires '#' !in noise && cmd != ',' && sub != ','
    ensures ParseText(noise + Rendered(cmd, sub, []) + tail)
            == if ',' in tail then Good(cmd, sub, 0, []) else Bad
  {
    DissectRendered(noise, cmd, sub, [], tail);
    CutNoFields(tail);
    CutAtMeaning(tail, ',');
    if ',' in tail {
      ZeroThenSemicolon(CutAt(tail, ',').before);
    }
  }

  lemma ZeroThenSemicolon(rest: seq<char>)
    ensures Atoi(['0'] + ([';'] + rest)) == 0
  {
    var s := ['0'] + ([';'] + rest);
    assert s[1..][0] == ';' && DigitPrefix(s[1..]) == [];
    assert DigitPrefix(s) == ['0'] + [];
    assert Value(['0']) == 0;
  }

  // ---------- The same through a buffer ----------

  lemma {:induction false} CStrConcat(s: seq<char>, rest: seq<char>)
    requires IsCString(s)
    ensures CStr(s + rest) == s + CStr(rest)
  {
    if s == [] {
      assert s + rest == rest;
    } else {
      assert (s + rest)[1..] == s[1..] + rest;
      CStrConcat(s[1..], rest);
    }
  }

  lemma {:induction false} JoinedIsCString(fields: seq<seq<char>>)
    requires AllCStrings(fields)
    ensures IsCString(Joined(fields))
  {
    if fields != [] {
      var f := fields[0];
      assert f in fields;
      assert forall g :: g in fields[1..] ==> g in fields;
      JoinedIsCString(fields[1..]);
    }
  }

  lemma RenderedIsCString(cmd: char, sub: char, fields: seq<seq<char>>)
    requires AllCStrings(fields) && cmd != NUL && sub != NUL
    ensures IsCString(Rendered(cmd, sub, fields))
  {
    JoinedIsCString(fields);
    var d := Decimal(|fields|);
    assert forall i :: 0 <= i < |d| ==> d[i] in d;
  }

  // What the meter would read: the bytes of the noise, the rendered packet and anything else,
  // taken up to the first NUL, parse back to the packet exactly if its characters are neither
  // commas nor NUL and its fields are sendable.
  lemma ReceivedRoundTrip(noise: seq<char>, cmd: char, sub: char, fields: seq<seq<char>>, tail: seq<char>)
    requires IsCString(noise) && '#' !in noise && 1 <= |fields| <= WU_NUM_FIELDS && AllCStrings(fields)
    ensures ParseText(CStr(noise + Rendered(cmd, sub, fields) + tail)) == Good(cmd, sub, |fields|, fields)
            <==> cmd != ',' && sub != ',' && cmd != NUL && sub != NUL && AllSendable(fields)
  {
    if cmd == NUL || sub == NUL {
      var more := Joined(fields) + ([';'] + tail);
      RenderedThen(noise, cmd, sub, fields, tail);
      HeaderApart(noise, cmd, sub, |fields|, more);
      NulInHeader(noise, cmd, sub, Decimal(|fields|) + more);
    } else {
      RenderedIsCString(cmd, sub, fields);
      CStrConcat(noise + Rendered(cmd, sub, fields), tail);
      ParseRendered(noise, cmd, sub, fields, CStr(tail));
    }
  }

  // A NUL for one of the characters ends the text before its header does.
  lemma NulInHeader(noise: seq<char>, cmd: char, sub: char, more: seq<char>)
    requires IsCString(noise) && '#' !in noise && (cmd == NUL || sub == NUL)
    ensures ParseText(CStr(noise + ['#'] + ([cmd, ',', sub, ','] + more))) == Bad
  {
    var t := noise + ['#'] + ([cmd, ',', sub, ','] + more);
    var rest := if cmd == NUL then [] else [cmd, ','];
    CStrIs(t, noise + ['#'] + rest);
    CutAtIs(noise, '#', rest);
    if cmd != NUL {
      if cmd == ',' {
        FirstComma([','], rest);
        FirstComma([], [',']);
      } else {
        CutAtIs([cmd], ',', []);
        assert rest == [cmd] + [','] + [];
      }
    }
  }

  // A command without parameters, alone on the line, is never taken for a packet.
  lemma ReceivedZeroCount(noise: seq<char>, cmd: char, sub: char)
    requires IsCString(noise) && '#' !in noise && cmd != ',' && sub != ',' && cmd != NUL && sub != NUL
    ensures ParseText(CStr(noise + Rendered(cmd, sub, []))) == Bad
  {
    assert AllCStrings([]);
    RenderedIsCString(cmd, sub, []);
    var t := noise + Rendered(cmd, sub, []);
    CStrConcat(t, []);
    assert t + [] == t;
    ParseZeroCount(noise, cmd, sub, []);
  }
}
