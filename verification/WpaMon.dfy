// The monitor of wpa_supplicant events: messages equal to the one before are skipped, the rest is
// taken apart by strtok_r in the very buffer that remembers the last message.
module WpaMon {
  import opened CStrings
  import opened Wrappers

  const BUFFER_SIZE := 100

  // ---------- strtok_r, as a function ----------

  // What strtok_r finds in a string, and the string it goes on with.
  datatype Token = NoToken | Token(text: seq<char>, rest: seq<char>)

  // The first place from i on that is no delimiter, or the end.
  function SkipFrom(s: seq<char>, delims: seq<char>, i: nat): (r: nat)
    requires i <= |s|
    ensures i <= r <= |s|
    decreases |s| - i
  {
    if i < |s| && s[i] in delims then SkipFrom(s, delims, i + 1) else i
  }

  // The first delimiter from i on, or the end.
  function EndFrom(s: seq<char>, delims: seq<char>, i: nat): (r: nat)
    requires i <= |s|
    ensures i <= r <= |s|
    decreases |s| - i
  {
    if i < |s| && s[i] !in delims then EndFrom(s, delims, i + 1) else i
  }

  function TokenStart(s: seq<char>, delims: seq<char>): (i: nat)
    ensures i <= |s|
  {
    SkipFrom(s, delims, 0)
  }

  function TokenEnd(s: seq<char>, delims: seq<char>): (j: nat)
    ensures TokenStart(s, delims) <= j <= |s|
  {
    EndFrom(s, delims, TokenStart(s, delims))
  }

  // The token s[i..j], if there is one, and what strtok_r leaves behind it.
  function TokenOf(s: seq<char>, i: nat, j: nat): Token
    requires i <= j <= |s|
  {
    if i == j then NoToken else Token(s[i..j], if j < |s| then s[j + 1..] else [])
  }

  function NextToken(s: seq<char>, delims: seq<char>): (t: Token)
    ensures t.Token? ==> t.text != [] && |t.rest| < |s|
  {
    TokenOf(s, TokenStart(s, delims), TokenEnd(s, delims))
  }

  // What follows the next token.
  function Rest(t: Token): seq<char> {
    if t.NoToken? then [] else t.rest
  }

  // A token is a longest piece without delimiters, and nothing but delimiters stands before it.
  // Without a token both bounds are the end.
  ghost predicate Bounds(s: seq<char>, delims: seq<char>, i: nat, j: nat) {
    && i <= j <= |s|
    && (forall k :: 0 <= k < i ==> s[k] in delims)
    && (forall k :: i <= k < j ==> s[k] !in delims)
    && (i < |s| ==> i < j) && (j < |s| ==> s[j] in delims)
  }

  lemma {:induction false} SkipFromMeaning(s: seq<char>, delims: seq<char>, i: nat)
    requires i <= |s|
    ensures forall k :: i <= k < SkipFrom(s, delims, i) ==> s[k] in delims
    ensures SkipFrom(s, delims, i) < |s| ==> s[SkipFrom(s, delims, i)] !in delims
    decreases |s| - i
  {
    if i < |s| && s[i] in delims {
      SkipFromMeaning(s, delims, i + 1);
    }
  }

  lemma {:induction false} EndFromMeaning(s: seq<char>, delims: seq<char>, i: nat)
    requires i <= |s|
    ensures forall k :: i <= k < EndFrom(s, delims, i) ==> s[k] !in delims
    ensures EndFrom(s, delims, i) < |s| ==> s[EndFrom(s, delims, i)] in delims
    decreases |s| - i
  {
    if i < |s| && s[i] !in delims {
      EndFromMeaning(s, delims, i + 1);
    }
  }

  lemma TokenBounds(s: seq<char>, delims: seq<char>)
    ensures Bounds(s, delims, TokenStart(s, delims), TokenEnd(s, delims))
  {
    SkipFromMeaning(s, delims, 0);
    EndFromMeaning(s, delims, TokenStart(s, delims));
  }

  // Only one pair of places is so.
  lemma BoundsUnique(s: seq<char>, delims: seq<char>, i: nat, j: nat)
    requires Bounds(s, delims, i, j)
    ensures i == TokenStart(s, delims) && j == TokenEnd(s, delims)
  {
    TokenBounds(s, delims);
    var i', j' := TokenStart(s, delims), TokenEnd(s, delims);
    assert (i < |s| ==> s[i] !in delims) && (i' < |s| ==> s[i'] !in delims);
    assert (j < |s| ==> s[j] in delims) && (j' < |s| ==> s[j'] in delims);
  }

  lemma TokenAt(s: seq<char>, delims: seq<char>, i: nat, j: nat)
    requires Bounds(s, delims, i, j)
    ensures NextToken(s, delims) == TokenOf(s, i, j)
  {
    BoundsUnique(s, delims, i, j);
  }

  // ---------- What a message means ----------

  const EVENT := "CTRL-EVENT-"

  datatype Report = Report(event: seq<char>, bssid: seq<char>, full: seq<char>)

  // The n-th token from here on, or nothing if there are fewer.
  function Nth(s: seq<char>, delims: seq<char>, n: nat): seq<char>
    decreases |s|
  {
    var t := NextToken(s, delims);
    if t.NoToken? then []
    else if n <= 1 then t.text
    else Nth(t.rest, delims, n - 1)
  }

  // The event of a message stands behind the first word, which ends at '>' or ' '.
  function EventToken(m: seq<char>): Token {
    NextToken(Rest(NextToken(m, "> ")), " ")
  }

  // Where the address is depends on the event; some events have none and scan results do not count.
  function BssidOf(kind: seq<char>, rest: seq<char>): Option<seq<char>> {
    if "CONNECTED" <= kind then Some(Nth(rest, " ", 4))
    else if "DISCONNECTED" <= kind then Some(Nth(rest, "= ", 2))
    else if "BSS-ADDED" <= kind || "BSS-REMOVED" <= kind then Some(Nth(rest, " ", 2))
    else if "SCAN-RESULTS" <= kind then None
    else Some([])
  }

  // What is reported for a message that is not skipped: nothing or one line.
  function Reported(m: seq<char>): seq<Report> {
    ReportOf(EventToken(m), m)
  }

  // ... given its event token.
  function ReportOf(t: Token, m: seq<char>): seq<Report> {
    if t.NoToken? || !(EVENT <= t.text) then []
    else
      match BssidOf(t.text[|EVENT|..], t.rest)
      case None => []
      case Some(bssid) => [Report(t.text, bssid, m)]
  }

  // What is left of a message after its first token is cut off.
  function Truncated(m: seq<char>): seq<char> {
    m[..TokenEnd(m, "> ")]
  }

  // The key: a truncated message yields no event.
  lemma TruncatedYieldsNothing(m: seq<char>)
    ensures EventToken(Truncated(m)).NoToken?
  {
    var t := Truncated(m);
    TokenBounds(m, "> ");
    TokenAt(t, "> ", TokenStart(m, "> "), |t|);
    TokenAt([], " ", 0, 0);
  }

  // What two calls of strtok_r leave.
  function Rest2(s: seq<char>, delims: seq<char>): seq<char> {
    Rest(NextToken(Rest(NextToken(s, delims)), delims))
  }

  lemma NthAfterTwo(s: seq<char>, delims: seq<char>)
    ensures Nth(s, delims, 4) == Nth(Rest2(s, delims), delims, 2)
  {
    var t := NextToken(s, delims);
    if t.Token? {
      assert Nth(s, delims, 4) == Nth(t.rest, delims, 3);
    }
  }

  // ---------- The three formats the monitor is written for ----------

  ghost predicate Word(w: seq<char>, delims: seq<char>) {
    w != [] && forall c :: c in w ==> c !in delims
  }

  // A word between delimiters is the next token.
  lemma WordToken(pre: seq<char>, w: seq<char>, d: char, tail: seq<char>, delims: seq<char>)
    requires Word(w, delims) && d in delims && forall c :: c in pre ==> c in delims
    ensures NextToken(pre + w + [d] + tail, delims) == Token(w, tail)
  {
    var s := pre + w + [d] + tail;
    TokenAt(s, delims, |pre|, |pre + w|);
    assert s[|pre|..|pre + w|] == w && s[|pre + w| + 1..] == tail;
  }

  // Two words and what follows, with one delimiter between.
  function Spaced(w: seq<char>, d: char, rest: seq<char>): seq<char> {
    w + [d] + rest
  }

  lemma SpacedToken(w: seq<char>, d: char, rest: seq<char>, delims: seq<char>)
    requires Word(w, delims) && d in delims
    ensures NextToken(Spaced(w, d, rest), delims) == Token(w, rest)
  {
    assert [] + w == w;
    WordToken([], w, d, rest, delims);
  }

  lemma SecondWord(v: seq<char>, d: char, w: seq<char>, d': char, rest: seq<char>, delims: seq<char>)
    requires Word(v, delims) && Word(w, delims) && d in delims && d' in delims
    ensures Nth(Spaced(v, d, Spaced(w, d', rest)), delims, 2) == w
    ensures Rest2(Spaced(v, d, Spaced(w, d', rest)), delims) == rest
  {
    SpacedToken(v, d, Spaced(w, d', rest), delims);
    SpacedToken(w, d', rest, delims);
    assert Nth(Spaced(w, d', rest), delims, 1) == w;
  }

  // The event is the second word: the first ends at '>' or a blank, the second at a blank.
  lemma EventTokenIs(pre: seq<char>, level: seq<char>, d: char, mid: seq<char>, event: seq<char>, rest: seq<char>)
    requires (forall c :: c in pre ==> c == '>' || c == ' ') && Word(level, "> ") && (d == '>' || d == ' ')
    requires (forall c :: c in mid ==> c == ' ') && Word(event, " ")
    ensures EventToken(pre + level + [d] + (mid + event + [' '] + rest)) == Token(event, rest)
  {
    WordToken(pre, level, d, mid + event + [' '] + rest, "> ");
    WordToken(mid, event, ' ', rest, " ");
  }

  // Only control events are reported ...
  lemma OtherMessagesAreNotReported(m: seq<char>)
    requires EventToken(m).Token? ==> !("CTRL-EVENT-" <= EventToken(m).text)
    ensures Reported(m) == []
  {
  }

  // The n-th word, or nothing if there are fewer.
  lemma NthMeaning(s: seq<char>, delims: seq<char>, n: nat)
    ensures NextToken(s, delims).NoToken? ==> Nth(s, delims, n) == []
    ensures NextToken(s, delims).Token? ==>
              && Nth(s, delims, 1) == NextToken(s, delims).text
              && Nth(s, delims, n + 2) == Nth(NextToken(s, delims).rest, delims, n + 1)
  {
  }

  // The message "<level>CTRL-EVENT-kind rest".
  function Announcement(level: seq<char>, kind: seq<char>, rest: seq<char>): seq<char> {
    Spaced(level, '>', Spaced("CTRL-EVENT-" + kind, ' ', rest))
  }

  lemma EventWord(kind: seq<char>)
    requires ' ' !in kind
    ensures Word(EVENT + kind, " ")
  {
    assert forall c :: c in EVENT ==> c != ' ';
    assert forall c :: c in EVENT + kind ==> c in EVENT || c in kind;
  }

  // ... each with the address its kind calls for: of a connection the fourth word behind it,
  lemma ConnectedKind(kind: seq<char>, rest: seq<char>)
    requires "CONNECTED" <= kind
    ensures BssidOf(kind, rest) == Some(Nth(rest, " ", 4))
  {
  }

  // of a disconnection the second, also ended by an equals sign,
  lemma DisconnectedKind(kind: seq<char>, rest: seq<char>)
    requires "DISCONNECTED" <= kind
    ensures BssidOf(kind, rest) == Some(Nth(rest, "= ", 2))
  {
    assert kind[0] == 'D' && "CONNECTED"[0] == 'C';
  }

  // of a network that appears or goes the second,
  lemma AddedKind(kind: seq<char>, rest: seq<char>)
    requires "BSS-ADDED" <= kind || "BSS-REMOVED" <= kind
    ensures BssidOf(kind, rest) == Some(Nth(rest, " ", 2))
  {
    assert kind[0] == 'B' && "CONNECTED"[0] == 'C' && "DISCONNECTED"[0] == 'D';
  }

  // of scan results no report at all,
  lemma ScanKind(kind: seq<char>, rest: seq<char>)
    requires "SCAN-RESULTS" <= kind
    ensures BssidOf(kind, rest) == None
  {
    assert kind[0] == 'S' && "CONNECTED"[0] == 'C' && "DISCONNECTED"[0] == 'D';
    assert "BSS-ADDED"[0] == 'B' && "BSS-REMOVED"[0] == 'B';
  }

  // and of any other kind none.
  predicate IsNamedKind(kind: seq<char>) {
    "CONNECTED" <= kind || "DISCONNECTED" <= kind || "BSS-ADDED" <= kind || "BSS-REMOVED" <= kind
    || "SCAN-RESULTS" <= kind
  }

  lemma OtherKind(kind: seq<char>, rest: seq<char>)
    requires !IsNamedKind(kind)
    ensures BssidOf(kind, rest) == Some([])
  {
  }

  lemma AnnouncementReported(level: seq<char>, kind: seq<char>, rest: seq<char>)
    requires Word(level, "> ") && ' ' !in kind
    ensures Reported(Announcement(level, kind, rest)) ==
            match BssidOf(kind, rest)
            case None => []
            case Some(bssid) => [Report("CTRL-EVENT-" + kind, bssid, Announcement(level, kind, rest))]
  {
    EventWord(kind);
    SpacedToken(level, '>', Spaced(EVENT + kind, ' ', rest), "> ");
    SpacedToken(EVENT + kind, ' ', rest, " ");
    assert (EVENT + kind)[|EVENT|..] == kind;
  }

  // "CONNECTED - Connection to <address> ...": three words stand before the address.
  lemma ConnectedIsReported(level: seq<char>, kind: seq<char>, u: seq<char>, v: seq<char>, w: seq<char>,
                            bssid: seq<char>, tail: seq<char>)
    requires "CONNECTED" <= kind && ' ' !in kind
    requires Word(level, "> ") && Word(u, " ") && Word(v, " ") && Word(w, " ") && Word(bssid, " ")
    ensures var rest := Spaced(u, ' ', Spaced(v, ' ', Spaced(w, ' ', Spaced(bssid, ' ', tail))));
            var m := Announcement(level, kind, rest);
            Reported(m) == [Report("CTRL-EVENT-" + kind, bssid, m)]
  {
    var behind := Spaced(w, ' ', Spaced(bssid, ' ', tail));
    var rest := Spaced(u, ' ', Spaced(v, ' ', behind));
    SecondWord(u, ' ', v, ' ', behind, " ");
    SecondWord(w, ' ', bssid, ' ', tail, " ");
    NthAfterTwo(rest, " ");
    ConnectedKind(kind, rest);
    AnnouncementReported(level, kind, rest);
  }

  // "DISCONNECTED bssid=<address> ...".
  lemma DisconnectedIsReported(level: seq<char>, kind: seq<char>, name: seq<char>, bssid: seq<char>, tail: seq<char>)
    requires "DISCONNECTED" <= kind && ' ' !in kind
    requires Word(level, "> ") && Word(name, "= ") && Word(bssid, "= ")
    ensures var m := Announcement(level, kind, Spaced(name, '=', Spaced(bssid, ' ', tail)));
            Reported(m) == [Report("CTRL-EVENT-" + kind, bssid, m)]
  {
    var rest := Spaced(name, '=', Spaced(bssid, ' ', tail));
    SecondWord(name, '=', bssid, ' ', tail, "= ");
    DisconnectedKind(kind, rest);
    AnnouncementReported(level, kind, rest);
  }

  // "BSS-ADDED <entry> <address>" and "BSS-REMOVED <entry> <address>".
  lemma AddedIsReported(level: seq<char>, kind: seq<char>, entry: seq<char>, bssid: seq<char>)
    requires ("BSS-ADDED" <= kind || "BSS-REMOVED" <= kind) && ' ' !in kind
    requires Word(level, "> ") && Word(entry, " ") && Word(bssid, " ")
    ensures var m := Announcement(level, kind, Spaced(entry, ' ', bssid));
            Reported(m) == [Report("CTRL-EVENT-" + kind, bssid, m)]
  {
    var rest := Spaced(entry, ' ', bssid);
    SpacedToken(entry, ' ', bssid, " ");
    TokenAt(bssid, " ", 0, |bssid|);
    assert bssid[0..|bssid|] == bssid;
    assert Nth(rest, " ", 2) == Nth(bssid, " ", 1) == bssid;
    AddedKind(kind, rest);
    AnnouncementReported(level, kind, rest);
  }

  lemma ScanResultsAreNotReported(level: seq<char>, kind: seq<char>, rest: seq<char>)
    requires "SCAN-RESULTS" <= kind && ' ' !in kind && Word(level, "> ")
    ensures Reported(Announcement(level, kind, rest)) == []
  {
    ScanKind(kind, rest);
    AnnouncementReported(level, kind, rest);
  }

  // Every other control event is reported with an empty address.
  lemma OtherEventIsReported(level: seq<char>, kind: seq<char>, rest: seq<char>)
    requires !IsNamedKind(kind) && ' ' !in kind && Word(level, "> ")
    ensures var m := Announcement(level, kind, rest);
            Reported(m) == [Report("CTRL-EVENT-" + kind, "", m)]
  {
    OtherKind(kind, rest);
    AnnouncementReported(level, kind, rest);
  }

  // ---------- The tokeniser in the buffer ----------

  // From start to its end at e the buffer holds the string s.
  ghost predicate Scanning(buf: seq<char>, start: nat, e: nat, s: seq<char>) {
    start <= e < |buf| && buf[start..e] == s && buf[e] == NUL && IsCString(s)
  }

  // Nothing before start, and no end of a string, has changed.
  ghost predicate Kept(before: seq<char>, after: seq<char>, start: nat) {
    && |before| == |after|
    && forall i :: 0 <= i < |before| && (i < start || before[i] == NUL) ==> after[i] == before[i]
  }

  lemma StringKept(before: seq<char>, after: seq<char>, start: nat, f: int, text: seq<char>)
    requires StringAt(before, f, text) && f + |text| <= start && Kept(before, after, start)
    ensures StringAt(after, f, text)
  {
    forall k | f <= k < f + |text|
      ensures after[k] == before[k]
    {
    }
  }

  // buf[a..b] is the next token of the string from start to e; a is e if there is none.
  ghost predicate Spans(buf: seq<char>, start: nat, e: nat, delims: seq<char>, a: nat, b: nat) {
    && start <= a <= b <= e < |buf|
    && (forall i :: start <= i < a ==> buf[i] in delims)
    && (forall i :: a <= i < b ==> buf[i] !in delims)
    && (a < e ==> a < b) && (b < e ==> buf[b] in delims)
  }

  lemma SpansInString(buf: seq<char>, start: nat, e: nat, s: seq<char>, delims: seq<char>, a: nat, b: nat)
    requires Scanning(buf, start, e, s) && Spans(buf, start, e, delims, a, b)
    ensures |s| == e - start && Bounds(s, delims, a - start, b - start)
  {
    var i, j := a - start, b - start;
    forall k | 0 <= k < e - start
      ensures s[k] == buf[start + k]
    {
    }
    assert j < |s| ==> s[j] == buf[b];
  }

  // strspn and strcspn.
  method FindToken(buf: array<char>, start: nat, delims: seq<char>, ghost e: nat) returns (a: nat, b: nat)
    requires start <= e < buf.Length && buf[e] == NUL && NoNul(buf, start, e) && NUL !in delims
    ensures Spans(buf[..], start, e, delims, a, b)
  {
    a := start;
    while buf[a] in delims
      invariant start <= a <= e && forall i :: start <= i < a ==> buf[i] in delims
      decreases e - a
    {
      a := a + 1;
    }
    b := a;
    while buf[b] != NUL && buf[b] !in delims
      invariant a <= b <= e && forall i :: a <= i < b ==> buf[i] !in delims
      decreases e - b
    {
      b := b + 1;
    }
  }

  // What ending the token at b leaves.
  lemma TokenCut(before: seq<char>, start: nat, e: nat, s: seq<char>, a: nat, b: nat)
    requires Scanning(before, start, e, s) && start <= a <= b <= e
    ensures StringAt(before[b := NUL], a, s[a - start..b - start]) && Kept(before, before[b := NUL], start)
    ensures b < e ==> Scanning(before[b := NUL], b + 1, e, s[b - start + 1..])
    ensures b == e ==> before[b := NUL] == before && Scanning(before, e, e, [])
  {
    var after := before[b := NUL];
    assert forall i :: start <= i < e ==> before[i] == s[i - start];
    assert after[a..b] == s[a - start..b - start];
    if b < e {
      assert after[b + 1..e] == s[b - start + 1..];
    }
  }

  // The state strtok_r leaves when the next token is t.
  ghost predicate TokenTaken(before: seq<char>, after: seq<char>, start: nat, e: nat, t: Token, tok: int, save: nat) {
    && Scanning(after, save, e, Rest(t)) && start <= save && Kept(before, after, start)
    && (tok == NULL <==> t.NoToken?)
    && (tok == NULL ==> after == before)
    && (tok != NULL ==>
          && start <= tok && tok + |t.text| <= save && StringAt(after, tok, t.text)
          && after == before[tok + |t.text| := NUL])
  }

  // It leaves the token s[a - start..b - start].
  lemma Taken(before: seq<char>, start: nat, e: nat, s: seq<char>, a: nat, b: nat, t: Token)
    requires Scanning(before, start, e, s) && start <= a <= b <= e && (a < e ==> a < b)
    requires t == TokenOf(s, a - start, b - start)
    ensures a == e ==> TokenTaken(before, before, start, e, t, NULL, e)
    ensures a < e ==> TokenTaken(before, before[b := NUL], start, e, t, a, if b < e then b + 1 else e)
  {
    TokenCut(before, start, e, s, a, b);
  }

  lemma StrtokFinds(before: seq<char>, start: nat, e: nat, s: seq<char>, delims: seq<char>, a: nat, b: nat)
    requires Scanning(before, start, e, s) && Spans(before, start, e, delims, a, b)
    ensures a - start == TokenStart(s, delims) && b - start == TokenEnd(s, delims)
  {
    SpansInString(before, start, e, s, delims, a, b);
    BoundsUnique(s, delims, a - start, b - start);
  }

  lemma ScanningHasNoNul(buf: seq<char>, start: nat, e: nat, s: seq<char>)
    requires Scanning(buf, start, e, s)
    ensures forall i :: start <= i < e ==> buf[i] != NUL
  {
    assert forall i :: start <= i < e ==> buf[i] == buf[start..e][i - start];
  }

  // Ends the token found at a, if there is one.
  method EndToken(buf: array<char>, a: nat, b: nat, ghost start: nat, ghost e: nat, ghost s: seq<char>, ghost t: Token,
                  ghost i: nat, ghost j: nat) returns (tok: int, save: nat)
    requires Scanning(buf[..], start, e, s) && start + i == a <= b == start + j <= e && (a < e ==> a < b)
    requires j <= |s| && t == TokenOf(s, i, j)
    modifies buf
    ensures TokenTaken(old(buf[..]), buf[..], start, e, t, tok, save)
    ensures tok == if a == e then NULL else a
  {
    ghost var before := buf[..];
    ScanningHasNoNul(before, start, e, s);
    Taken(before, start, e, s, a, b, t);
    if buf[a] == NUL {
      return NULL, a;
    }
    tok, save := a, b;
    if buf[b] != NUL {
      save := b + 1;
      buf[b] := NUL;
    }
    assert buf[..] == before[b := NUL];
  }

  // strtok_r: ends the next token where it stands.
  method Strtok(buf: array<char>, start: nat, delims: seq<char>, ghost e: nat, ghost s: seq<char>)
    returns (tok: int, save: nat)
    requires Scanning(buf[..], start, e, s) && NUL !in delims
    modifies buf
    ensures TokenTaken(old(buf[..]), buf[..], start, e, NextToken(s, delims), tok, save)
    ensures tok != NULL ==> tok == start + TokenStart(s, delims)
  {
    ghost var before := buf[..];
    ScanningHasNoNul(before, start, e, s);
    var a, b := FindToken(buf, start, delims, e);
    StrtokFinds(before, start, e, s, delims, a, b);
    tok, save := EndToken(buf, a, b, start, e, s, NextToken(s, delims), TokenStart(s, delims), TokenEnd(s, delims));
  }

  ghost predicate FoundAt(buf: seq<char>, tok: int, text: seq<char>) {
    if tok == NULL then text == [] else StringAt(buf, tok, text)
  }

  // Two calls of strtok_r, for the second token.
  method Second(buf: array<char>, start: nat, delims: seq<char>, ghost e: nat, ghost s: seq<char>)
    returns (tok: int, save: nat)
    requires Scanning(buf[..], start, e, s) && NUL !in delims
    modifies buf
    ensures Scanning(buf[..], save, e, Rest2(s, delims)) && start <= save
    ensures Kept(old(buf[..]), buf[..], start)
    ensures FoundAt(buf[..], tok, Nth(s, delims, 2))
  {
    tok, save := Strtok(buf, start, delims, e, s);
    tok, save := Strtok(buf, save, delims, e, Rest(NextToken(s, delims)));
  }

  // Where the address of an event stands; report is false if the event does not count.
  method Bssid(buf: array<char>, kind: seq<char>, start: nat, ghost e: nat, ghost s: seq<char>)
    returns (report: bool, bssid: int)
    requires Scanning(buf[..], start, e, s)
    modifies buf
    ensures Kept(old(buf[..]), buf[..], start)
    ensures report == BssidOf(kind, s).Some?
    ensures report ==> FoundAt(buf[..], bssid, BssidOf(kind, s).value)
  {
    var save;
    report, bssid := true, NULL;
    if "CONNECTED" <= kind {
      bssid, save := Second(buf, start, " ", e, s);
      bssid, save := Second(buf, save, " ", e, Rest2(s, " "));
      NthAfterTwo(s, " ");
    } else if "DISCONNECTED" <= kind {
      bssid, save := Second(buf, start, "= ", e, s);
    } else if "BSS-ADDED" <= kind || "BSS-REMOVED" <= kind {
      bssid, save := Second(buf, start, " ", e, s);
    } else if "SCAN-RESULTS" <= kind {
      report := false;
    }
  }

  // ---------- The loop ----------

  // strcpy.
  method Strcpy(dst: array<char>, src: array<char>, ghost s: seq<char>)
    requires dst != src && dst.Length == src.Length && StringAt(src[..], 0, s)
    modifies dst
    ensures StringAt(dst[..], 0, s)
  {
    assert forall j :: 0 <= j < |s| ==> src[j] == src[..][0..|s|][j];
    var i := 0;
    while src[i] != NUL
      invariant 0 <= i <= |s| && forall j :: 0 <= j < i ==> dst[j] == s[j]
      decreases |s| - i
    {
      dst[i] := src[i];
      i := i + 1;
    }
    dst[i] := NUL;
  }

  // A pointer as printed: the empty string for NULL.
  function TextAt(buf: array<char>, f: int): seq<char>
    requires f == NULL || 0 <= f < buf.Length
    reads buf
  {
    if f == NULL then [] else CStr(buf[f..])
  }

  lemma TextIs(buf: array<char>, f: int, text: seq<char>)
    requires FoundAt(buf[..], f, text)
    ensures (f == NULL || 0 <= f < buf.Length) && TextAt(buf, f) == text
  {
    if f != NULL {
      StringAtIsCStr(buf[..], f, text);
      assert buf[f..] == buf[..][f..];
    }
  }

  // A message cut at b.
  lemma CutAtPrefix(start: seq<char>, m: seq<char>, b: nat)
    requires StringAt(start, 0, m) && b <= |m|
    ensures StringAt(start[b := NUL], 0, m[..b])
  {
    var buf := start[b := NUL];
    assert forall i :: 0 <= i < |m| ==> start[i] == start[0..|m|][i];
    assert buf[0..b] == m[..b];
  }

  // What a message without an event leaves in the buffer.
  lemma TruncatedIn(buf: seq<char>, start: seq<char>, m: seq<char>, tok: int, save: nat)
    requires StringAt(start, 0, m) && TokenTaken(start, buf, 0, |m|, NextToken(m, "> "), tok, save)
    requires tok != NULL ==> tok == TokenStart(m, "> ")
    ensures StringAt(buf, 0, Truncated(m))
  {
    var t := NextToken(m, "> ");
    TokenBounds(m, "> ");
    if t.Token? {
      CutAtPrefix(start, m, tok + |t.text|);
    }
  }

  // The body of the loop for a message m that differs from the one remembered in temp.
  method Handle(temp: array<char>, str: array<char>, ghost m: seq<char>) returns (lines: seq<Report>)
    requires temp != str && temp.Length == str.Length && StringAt(str[..], 0, m)
    modifies temp
    ensures lines == Reported(m)
    ensures StringAt(temp[..], 0, m) || (EventToken(m).NoToken? && StringAt(temp[..], 0, Truncated(m)))
  {
    Strcpy(temp, str, m);
    ghost var start := temp[..];
    var tok, save := Strtok(temp, 0, "> ", |m|, m);
    TruncatedIn(temp[..], start, m, tok, save);
    var event;
    event, save := Strtok(temp, save, " ", |m|, Rest(NextToken(m, "> ")));
    if event == NULL {
      return [];
    }
    lines := Line(temp, event, save, str, m, EventToken(m));
    Strcpy(temp, str, m);
  }

  // The part of the body behind the event token.
  method Line(temp: array<char>, event: nat, save: nat, str: array<char>, ghost m: seq<char>, ghost t: Token)
    returns (lines: seq<Report>)
    requires temp != str && StringAt(str[..], 0, m) && t.Token?
    requires StringAt(temp[..], event, t.text) && event + |t.text| <= save && Scanning(temp[..], save, |m|, t.rest)
    modifies temp
    ensures lines == ReportOf(t, m)
  {
    TextIs(temp, event, t.text);
    if !(EVENT <= TextAt(temp, event)) {
      return [];
    }
    ghost var before := temp[..];
    var report, bssid := Bssid(temp, TextAt(temp, event)[|EVENT|..], save, |m|, t.rest);
    if !report {
      return [];
    }
    StringKept(before, temp[..], save, event, t.text);
    TextIs(temp, event, t.text);
    TextIs(temp, bssid, BssidOf(t.text[|EVENT|..], t.rest).value);
    TextIs(str, 0, m);
    return [Report(TextAt(temp, event), TextAt(temp, bssid), TextAt(str, 0))];
  }

  // What recv may deliver: never nothing, and one byte less than the buffer holds, since the loop
  // terminates what it got.
  type Message = m: seq<char> | 1 <= |m| < BUFFER_SIZE witness [' ']

  // ---------- What should be reported ----------

  // The messages as C strings.
  function Strings(ms: seq<Message>): (ss: seq<seq<char>>)
  {
    if ms == [] then [] else Strings(ms[..|ms| - 1]) + [CStr(ms[|ms| - 1])]
  }

  // The last of a list of messages, and the empty string before the first.
  function Last(ss: seq<seq<char>>): seq<char> {
    if ss == [] then [] else ss[|ss| - 1]
  }

  // Every message equal to its immediate predecessor is dropped.
  function Dedup(ss: seq<seq<char>>): seq<seq<char>> {
    if |ss| <= 1 then ss
    else if ss[|ss| - 1] == ss[|ss| - 2] then Dedup(ss[..|ss| - 1])
    else Dedup(ss[..|ss| - 1]) + [ss[|ss| - 1]]
  }

  function Reports(ss: seq<seq<char>>): seq<Report> {
    if ss == [] then [] else Reports(ss[..|ss| - 1]) + Reported(ss[|ss| - 1])
  }

  // What the buffer remembers: the last message, or a piece of it that yields nothing where the
  // message yields nothing either.
  ghost predicate Remembers(temp: seq<char>, last: seq<char>) {
    temp == last || (EventToken(temp).NoToken? && EventToken(last).NoToken?)
  }

  lemma NoEventNoReport(m: seq<char>)
    requires EventToken(m).NoToken?
    ensures Reported(m) == []
  {
  }

  // One more message adds its reports unless it repeats the last one.
  lemma ReportsSnoc(ss: seq<seq<char>>, m: seq<char>)
    ensures Reports(Dedup(ss + [m])) ==
            Reports(Dedup(ss)) + if ss != [] && m == ss[|ss| - 1] then [] else Reported(m)
  {
    if ss == [] {
      ReportsOne(m);
    } else {
      DedupSnoc(ss, m);
      assert (Dedup(ss) + [m])[..|Dedup(ss)|] == Dedup(ss);
    }
  }

  lemma ReportsOne(m: seq<char>)
    ensures Reports(Dedup([])) == [] && Reports(Dedup([] + [m])) == Reported(m)
  {
    assert [] + [m] == [m] && [m][..0] == [];
  }

  lemma DedupSnoc(ss: seq<seq<char>>, m: seq<char>)
    requires ss != []
    ensures Dedup(ss + [m]) == if m == ss[|ss| - 1] then Dedup(ss) else Dedup(ss) + [m]
  {
    assert (ss + [m])[..|ss|] == ss;
  }

  // Skipping what equals the remembered text is as good as skipping what equals the last message.
  lemma SkippingIsRight(ss: seq<seq<char>>, temp: seq<char>, m: seq<char>)
    requires Remembers(temp, Last(ss))
    ensures Reports(Dedup(ss + [m])) == Reports(Dedup(ss)) + if temp == m then [] else Reported(m)
  {
    ReportsSnoc(ss, m);
    var repeats := ss != [] && m == Last(ss);
    if repeats != (temp == m) {
      assert EventToken([]).NoToken?;
      NoEventNoReport(m);
    }
  }

  // recv into str, terminated.
  method Receive(str: array<char>, m: Message)
    requires str.Length == BUFFER_SIZE
    modifies str
    ensures StringAt(str[..], 0, CStr(m))
  {
    forall i | 0 <= i < |m| {
      str[i] := m[i];
    }
    str[|m|] := NUL;
    assert str[..|m|] == m;
    StringFrom(str[..], 0, |CStr(m)|, CStr(m));
  }

  lemma StringsNext(ms: seq<Message>, i: nat)
    requires i < |ms|
    ensures Strings(ms[..i + 1]) == Strings(ms[..i]) + [CStr(ms[i])]
    ensures Last(Strings(ms[..i + 1])) == CStr(ms[i])
  {
    assert ms[..i + 1][..i] == ms[..i];
  }

  // One turn of the loop.
  method Turn(str: array<char>, temp: array<char>, message: Message, ghost ss: seq<seq<char>>,
              ghost remembered: seq<char>) returns (lines: seq<Report>, ghost remembered': seq<char>)
    requires str != temp && str.Length == temp.Length == BUFFER_SIZE
    requires StringAt(temp[..], 0, remembered) && Remembers(remembered, Last(ss))
    modifies str, temp
    ensures StringAt(temp[..], 0, remembered') && Remembers(remembered', CStr(message))
    ensures Reports(Dedup(ss + [CStr(message)])) == Reports(Dedup(ss)) + lines
  {
    ghost var m := CStr(message);
    Receive(str, message);
    SkippingIsRight(ss, remembered, m);
    TextIs(temp, 0, remembered);
    TextIs(str, 0, m);
    if TextAt(temp, 0) == TextAt(str, 0) {
      return [], remembered;
    }
    lines := Handle(temp, str, m);
    if StringAt(temp[..], 0, m) {
      remembered' := m;
    } else {
      TruncatedYieldsNothing(m);
      remembered' := Truncated(m);
    }
  }

  // The loop, over everything received until it is stopped: exactly the reports of the messages
  // that do not repeat their predecessor.
  method Monitor(messages: seq<Message>) returns (log: seq<Report>)
    ensures log == Reports(Dedup(Strings(messages)))
  {
    var str, temp := new char[BUFFER_SIZE], new char[BUFFER_SIZE];
    temp[0] := NUL;
    log := [];
    ghost var remembered: seq<char> := [];
    ghost var ss: seq<seq<char>> := [];
    var i := 0;
    while i < |messages|
      invariant 0 <= i <= |messages|
      invariant log == Reports(Dedup(ss)) && ss == Strings(messages[..i])
      invariant StringAt(temp[..], 0, remembered) && Remembers(remembered, Last(ss))
    {
      var lines;
      lines, remembered := Turn(str, temp, messages[i], ss, remembered);
      log := log + lines;
      StringsNext(messages, i);
      ss := ss + [CStr(messages[i])];
      i := i + 1;
    }
    assert messages[..i] == messages;
  }
}
