// Text as C keeps it: characters up to a terminating NUL.
module CStrings {

  const NUL := '\0'

  predicate IsCString(s: seq<char>) {
    forall i :: 0 <= i < |s| ==> s[i] != NUL
  }

  // Reading a C string at an index up to and including its terminator.
  function CharAt(s: seq<char>, i: nat): char
    requires i <= |s|
  {
    if i < |s| then s[i] else NUL
  }

  // The C string that starts at a buffer: everything before the first NUL.
  function CStr(buf: seq<char>): (s: seq<char>)
    ensures s <= buf && IsCString(s)
    ensures |s| < |buf| ==> buf[|s|] == NUL
  {
    if buf == [] || buf[0] == NUL then [] else [buf[0]] + CStr(buf[1..])
  }

  // A C string is determined by its characters and the NUL after them.
  lemma {:induction false} CStrIs(buf: seq<char>, s: seq<char>)
    requires s <= buf && IsCString(s) && (|s| < |buf| ==> buf[|s|] == NUL)
    ensures CStr(buf) == s
  {
    if s != [] {
      assert buf[0] == s[0];
      CStrIs(buf[1..], s[1..]);
      assert s == [s[0]] + s[1..];
    }
  }

  // ---------- Strings inside a buffer; a pointer is an index, or NULL ----------

  const NULL := -1

  // The C string at index f of a buffer.
  ghost predicate StringAt(buf: seq<char>, f: int, text: seq<char>) {
    && 0 <= f && f + |text| < |buf|
    && buf[f..f + |text|] == text && buf[f + |text|] == NUL && IsCString(text)
  }

  lemma StringFrom(buf: seq<char>, f: int, e: int, text: seq<char>)
    requires 0 <= f <= e < |buf| && buf[e] == NUL && text == buf[f..e]
    requires forall i :: f <= i < e ==> buf[i] != NUL
    ensures StringAt(buf, f, text)
  {
  }

  lemma StringAtIsCStr(buf: seq<char>, f: int, text: seq<char>)
    requires StringAt(buf, f, text)
    ensures CStr(buf[f..]) == text
  {
    assert buf[f..][..|text|] == text;
    CStrIs(buf[f..], text);
  }

  lemma StringStays(before: seq<char>, after: seq<char>, f: int, text: seq<char>, limit: int)
    requires StringAt(before, f, text) && f + |text| < limit
    requires 0 <= limit <= |before| == |after| && before[..limit] == after[..limit]
    ensures StringAt(after, f, text)
  {
    forall k | 0 <= k < limit
      ensures before[k] == after[k]
    {
      assert before[..limit][k] == after[..limit][k];
    }
  }

  ghost predicate NoNul(buf: array<char>, s: nat, e: nat)
    requires e <= buf.Length
    reads buf
  {
    forall i :: s <= i < e ==> buf[i] != NUL
  }
}
