// Hardware addresses: the text form is parsed in two passes over the string and printed with
// colons and upper-case digits.
module Addresses {
  import opened Words
  import opened CStrings

  const MAC_ADDR_LENGTH := 6

  predicate IsHex(c: char) {
    '0' <= c <= '9' || 'a' <= c <= 'f' || 'A' <= c <= 'F'
  }

  type Nib = n: int | 0 <= n < 16

  function Nibble(c: char): Nib
    requires IsHex(c)
  {
    if c <= '9' then (c - '0') as int
    else if c <= 'F' then (c - 'A') as int + 10
    else (c - 'a') as int + 10
  }

  // The values of the hex digits in the longest prefix of hex digits and colons.
  function HexDigits(s: seq<char>): (ds: seq<Nib>)
    ensures |ds| <= |s|
  {
    if s == [] then []
    else if s[0] == ':' then HexDigits(s[1..])
    else if IsHex(s[0]) then [Nibble(s[0])] + HexDigits(s[1..])
    else []
  }

  function ByteOf(high: Nib, low: Nib): Byte {
    16 * (high as int) + low
  }

  // The bytes that pairs of digits spell.
  function Pack(ds: seq<Nib>): (bs: seq<Byte>)
    ensures |bs| == |ds| / 2
  {
    if |ds| < 2 then [] else [ByteOf(ds[0], ds[1])] + Pack(ds[2..])
  }

  // Setting bit 0x20 of a character code.
  function WithBit5(code: int): int
    requires code >= 0
  {
    if code / 32 % 2 == 0 then code + 32 else code
  }

  // The code both passes work with: letters are turned to lower case.
  function Folded(c: char): int {
    if c as int > 0x39 then WithBit5(c as int) else c as int
  }

  lemma FoldedIsHex(c: char)
    ensures (0x30 <= Folded(c) <= 0x39 || 0x61 <= Folded(c) <= 0x66) <==> IsHex(c)
    ensures IsHex(c) ==>
              Nibble(c) == if Folded(c) - 0x30 > 9 then Folded(c) - 0x30 - 0x27 else Folded(c) - 0x30
  {
  }

  class Address {
    const macaddr: array<Byte>

    constructor ()
      ensures macaddr.Length == MAC_ADDR_LENGTH && fresh(macaddr)
    {
      macaddr := new Byte[MAC_ADDR_LENGTH];
    }

    // False stands for the exception on a malformed address.
    method SetHWAddrFromColonFormat(colonmac: seq<char>) returns (ok: bool)
      requires IsCString(colonmac) && macaddr.Length == MAC_ADDR_LENGTH
      modifies macaddr
      ensures ok <==> |HexDigits(colonmac)| >= 2 * MAC_ADDR_LENGTH
      ensures ok ==> macaddr[..] == Pack(HexDigits(colonmac)[..2 * MAC_ADDR_LENGTH])
      ensures !ok ==> macaddr[..] == old(macaddr[..])
    {
      var digits := CountDigits(colonmac);
      if digits != 2 * MAC_ADDR_LENGTH {
        return false;
      }
      ConvertDigits(colonmac, macaddr);
      return true;
    }

    // The text of the address.
    method ConvertHWAddrToColonFormat() returns (text: seq<char>)
      requires macaddr.Length == MAC_ADDR_LENGTH
      ensures text == Printed(macaddr[..]) && IsMacText(text, macaddr[..])
    {
      text := Format();
      PrintedMeaning(macaddr[..]);
    }

    method Format() returns (text: seq<char>)
      requires macaddr.Length == MAC_ADDR_LENGTH
      ensures text == Printed(macaddr[..])
    {
      ghost var m := macaddr[..];
      assert Printed(m[5..]) == Hex2(m[5]);
      PrintedStep(m, 4);
      PrintedStep(m, 3);
      PrintedStep(m, 2);
      PrintedStep(m, 1);
      PrintedStep(m, 0);
      assert m[0..] == m;
      text := Hex2(macaddr[0]) + ":" + Hex2(macaddr[1]) + ":" + Hex2(macaddr[2]) + ":" + Hex2(macaddr[3]) + ":"
      + Hex2(macaddr[4]) + ":" + Hex2(macaddr[5]);
    }
  }

  // The code of one hex character brought down to its value.
  method DigitValue(c: char) returns (hexChar: int)
    requires IsHex(c)
    ensures hexChar == Nibble(c)
  {
    FoldedIsHex(c);
    hexChar := Folded(c) - 0x30;
    if hexChar > 9 {
      hexChar := hexChar - 0x27;
    }
  }

  // The second pass: pairs of digits become bytes.
  method ConvertDigits(colonmac: seq<char>, macaddr: array<Byte>)
    requires macaddr.Length == MAC_ADDR_LENGTH && |HexDigits(colonmac)| >= 2 * MAC_ADDR_LENGTH
    modifies macaddr
    ensures macaddr[..] == Pack(HexDigits(colonmac)[..2 * MAC_ADDR_LENGTH])
  {
    ghost var digits := HexDigits(colonmac)[..2 * MAC_ADDR_LENGTH];
    assert colonmac[0..] == colonmac;
    var hexValue: Byte, count: nat, numMacChar: nat, macByteNum: nat := 0, 0, 0, 0;
    while macByteNum < MAC_ADDR_LENGTH
      invariant count <= |colonmac| && macByteNum <= MAC_ADDR_LENGTH
      invariant Converted(macaddr[..], digits, numMacChar, macByteNum, hexValue)
      invariant digits[numMacChar..] <= HexDigits(colonmac[count..])
      decreases |colonmac| - count
    {
      NextDigit(colonmac, count, digits, numMacChar);
      var c := colonmac[count];
      count := count + 1;
      if c == ':' {
        continue;
      }
      hexValue, macByteNum := ConvertDigit(c, macaddr, hexValue, numMacChar, macByteNum, digits);
      numMacChar := numMacChar + 1;
    }
    assert macaddr[..] == macaddr[..][..macByteNum];
  }

  // The variables of the second pass after n digits: whole bytes are stored, half a byte is kept.
  ghost predicate Converted(mac: seq<Byte>, digits: seq<Nib>, n: nat, byteNum: nat, hexValue: Byte) {
    && |mac| == MAC_ADDR_LENGTH && |digits| == 2 * MAC_ADDR_LENGTH && n <= |digits|
    && (n == 2 * byteNum || n == 2 * byteNum + 1)
    && hexValue == (if n == 2 * byteNum then 0 else digits[2 * byteNum])
    && mac[..byteNum] == Pack(digits)[..byteNum]
  }

  // One digit of the second pass.
  method ConvertDigit(c: char, macaddr: array<Byte>, hexValue: Byte, n: nat, byteNum: nat, ghost digits: seq<Nib>)
    returns (hexValue': Byte, byteNum': nat)
    requires Converted(macaddr[..], digits, n, byteNum, hexValue) && n < |digits|
    requires IsHex(c) && digits[n] == Nibble(c)
    modifies macaddr
    ensures Converted(macaddr[..], digits, n + 1, byteNum', hexValue')
  {
    var hexChar := DigitValue(c);
    hexValue', byteNum' := (hexValue * 16 + hexChar) % 256, byteNum;
    if (n + 1) % 2 == 0 {
      PackAt(digits, byteNum);
      macaddr[byteNum] := hexValue';
      hexValue' := 0;
      byteNum' := byteNum + 1;
    }
  }

  lemma {:induction false} PackAt(ds: seq<Nib>, k: nat)
    requires 2 * k + 1 < |ds|
    ensures Pack(ds)[k] == 16 * (ds[2 * k] as int) + ds[2 * k + 1]
  {
    if k > 0 {
      PackAt(ds[2..], k - 1);
    }
  }

  // The next character of the second pass, while digits are wanted: a colon or the next digit.
  lemma NextDigit(s: seq<char>, i: nat, digits: seq<Nib>, n: nat)
    requires i <= |s| && n < |digits| && digits[n..] <= HexDigits(s[i..])
    ensures i < |s| && (s[i] != ':' ==> IsHex(s[i]) && digits[n] == Nibble(s[i]))
    ensures digits[if s[i] == ':' then n else n + 1..] <= HexDigits(s[i + 1..])
  {
    NextChar(s, i);
    assert digits[n..][0] == digits[n] && digits[n..][1..] == digits[n + 1..];
    var rest := HexDigits(s[i + 1..]);
    if s[i] == ':' {
      assert [] + rest == rest;
    } else {
      assert ([Nibble(s[i])] + rest)[1..] == rest;
    }
  }

  lemma NextChar(s: seq<char>, i: nat)
    requires i <= |s| && HexDigits(s[i..]) != []
    ensures i < |s| && (s[i] == ':' || IsHex(s[i]))
    ensures HexDigits(s[i..])
            == (if s[i] == ':' then [] else [Nibble(s[i])]) + HexDigits(s[i + 1..])
  {
    assert s[i..][1..] == s[i + 1..];
  }

  // The first pass: the digits before the first other character, but no more than twelve.
  method CountDigits(colonmac: seq<char>) returns (numMacChar: nat)
    requires IsCString(colonmac)
    ensures numMacChar == if |HexDigits(colonmac)| < 2 * MAC_ADDR_LENGTH then |HexDigits(colonmac)|
                          else 2 * MAC_ADDR_LENGTH
  {
    var count := 0;
    numMacChar := 0;
    var errorEnd := false;
    while !errorEnd
      invariant count <= |colonmac| || errorEnd
      invariant numMacChar <= 2 * MAC_ADDR_LENGTH
      invariant !errorEnd ==> |HexDigits(colonmac)| == numMacChar + |HexDigits(colonmac[count..])|
      invariant errorEnd ==>
                  numMacChar == if |HexDigits(colonmac)| < 2 * MAC_ADDR_LENGTH then |HexDigits(colonmac)|
                                else 2 * MAC_ADDR_LENGTH
      decreases !errorEnd, |colonmac| - count
    {
      var c := CharAt(colonmac, count);
      count := count + 1;
      if c == ':' {
        continue;
      }
      FoldedIsHex(c);
      var hexChar := Folded(c);
      if hexChar == 0 || numMacChar >= 2 * MAC_ADDR_LENGTH
         || !(0x30 <= hexChar <= 0x39 || 0x61 <= hexChar <= 0x66)
      {
        errorEnd := true;
      } else {
        numMacChar := numMacChar + 1;
      }
    }
  }

  function HexDigit(n: nat): char
    requires n < 16
  {
    if n < 10 then '0' + n as char else 'A' + (n - 10) as char
  }

  function Hex2(b: Byte): (s: seq<char>)
    ensures |s| == 2
  {
    [HexDigit(b / 16), HexDigit(b % 16)]
  }

  // %02X six times, with colons between.
  function Printed(mac: seq<Byte>): seq<char> {
    if mac == [] then []
    else if |mac| == 1 then Hex2(mac[0])
    else Hex2(mac[0]) + ":" + Printed(mac[1..])
  }

  lemma PrintedStep(mac: seq<Byte>, i: nat)
    requires i + 1 < |mac|
    ensures Printed(mac[i..]) == Hex2(mac[i]) + ":" + Printed(mac[i + 1..])
  {
    assert mac[i..][1..] == mac[i + 1..];
  }

  // Six pairs of upper-case digits, most significant digit first, and five colons between them.
  predicate IsMacText(text: seq<char>, mac: seq<Byte>) {
    && |mac| == 6 && |text| == 17
    && (forall i :: 0 <= i < 5 ==> text[3 * i + 2] == ':')
    && forall i :: 0 <= i < 6 ==>
         text[3 * i] == "0123456789ABCDEF"[mac[i] / 16] && text[3 * i + 1] == "0123456789ABCDEF"[mac[i] % 16]
  }

  lemma {:induction false} PrintedAt(mac: seq<Byte>, i: nat)
    requires i < |mac|
    ensures |Printed(mac)| == 3 * |mac| - 1 && (i + 1 < |mac| ==> Printed(mac)[3 * i + 2] == ':')
    ensures Printed(mac)[3 * i] == HexDigit(mac[i] / 16) && Printed(mac)[3 * i + 1] == HexDigit(mac[i] % 16)
  {
    if |mac| > 1 {
      PrintedAt(mac[1..], if i == 0 then 0 else i - 1);
    }
  }

  lemma HexDigitMeaning(n: nat)
    requires n < 16
    ensures HexDigit(n) == "0123456789ABCDEF"[n]
  {
  }

  lemma PrintedMeaning(mac: seq<Byte>)
    requires |mac| == MAC_ADDR_LENGTH
    ensures IsMacText(Printed(mac), mac)
  {
    forall i | 0 <= i < 6
      ensures |Printed(mac)| == 17 && (i < 5 ==> Printed(mac)[3 * i + 2] == ':')
      ensures Printed(mac)[3 * i] == "0123456789ABCDEF"[mac[i] / 16]
      ensures Printed(mac)[3 * i + 1] == "0123456789ABCDEF"[mac[i] % 16]
    {
      PrintedAt(mac, i);
      HexDigitMeaning(mac[i] / 16);
      HexDigitMeaning(mac[i] % 16);
    }
  }

  // The half bytes of an address, the high one first.
  function Nibbles(mac: seq<Byte>): (ds: seq<Nib>)
    ensures |ds| == 2 * |mac|
    ensures Pack(ds) == mac
  {
    if mac == [] then []
    else
      var rest := Nibbles(mac[1..]);
      assert ([mac[0] / 16, mac[0] % 16] + rest)[2..] == rest;
      [mac[0] / 16, mac[0] % 16] + rest
  }

  lemma {:induction false} PrintedDigits(mac: seq<Byte>)
    ensures HexDigits(Printed(mac)) == Nibbles(mac)
    ensures IsCString(Printed(mac))
  {
    if mac != [] {
      var rest := if |mac| == 1 then [] else ":" + Printed(mac[1..]);
      assert Printed(mac) == Hex2(mac[0]) + rest;
      Hex2Digits(mac[0], rest);
      PrintedDigits(mac[1..]);
      if |mac| > 1 {
        assert rest[1..] == Printed(mac[1..]);
      }
    }
  }

  lemma Hex2Digits(b: Byte, rest: seq<char>)
    ensures HexDigits(Hex2(b) + rest) == [b / 16, b % 16] + HexDigits(rest)
    ensures IsCString(rest) ==> IsCString(Hex2(b) + rest)
  {
    var c, d := HexDigit(b / 16), HexDigit(b % 16);
    assert Hex2(b) + rest == [c] + ([d] + rest);
    HexDigitsStep(c, [d] + rest);
    HexDigitsStep(d, rest);
  }

  lemma HexDigitsStep(c: char, rest: seq<char>)
    requires IsHex(c)
    ensures HexDigits([c] + rest) == [Nibble(c)] + HexDigits(rest)
  {
    assert ([c] + rest)[1..] == rest;
  }

  // Parsing the printed form of any six bytes gives the bytes back.
  lemma AddressRoundTrip(mac: seq<Byte>)
    requires |mac| == MAC_ADDR_LENGTH
    ensures var ds := HexDigits(Printed(mac));
            |ds| >= 2 * MAC_ADDR_LENGTH && Pack(ds[..2 * MAC_ADDR_LENGTH]) == mac
  {
    PrintedDigits(mac);
    assert HexDigits(Printed(mac))[..12] == HexDigits(Printed(mac));
  }

  // The digits of both cases and the colon are the only characters that are read: from the first
  // other one on nothing is.
  lemma {:induction false} OtherCharacterStops(a: seq<char>, c: char, b: seq<char>)
    requires !('0' <= c <= '9') && !('a' <= c <= 'f') && !('A' <= c <= 'F') && c != ':'
    ensures HexDigits(a + [c] + b) == HexDigits(a)
  {
    if a == [] {
      assert [] + [c] + b == [c] + b;
    } else {
      assert (a + [c] + b)[1..] == a[1..] + [c] + b;
      OtherCharacterStops(a[1..], c, b);
    }
  }

  // Each digit is read as its value, in its place.
  lemma DigitIsRead(c: char, rest: seq<char>, n: nat)
    requires n < 16 && (c == "0123456789abcdef"[n] || c == "0123456789ABCDEF"[n])
    ensures HexDigits([c] + rest) == [n] + HexDigits(rest)
  {
    NibbleMeaning(c, n);
    HexDigitsStep(c, rest);
  }

  lemma NibbleMeaning(c: char, n: nat)
    requires n < 16 && (c == "0123456789abcdef"[n] || c == "0123456789ABCDEF"[n])
    ensures IsHex(c) && Nibble(c) == n
  {
  }

  // Colons may stand anywhere among the digits, and letters may be of either case.
  lemma {:induction false} ColonsAnywhere(a: seq<char>, b: seq<char>)
    ensures HexDigits(a + ":" + b) == HexDigits(a + b)
  {
    if a != [] {
      assert (a + ":" + b)[1..] == a[1..] + ":" + b && (a + b)[1..] == a[1..] + b;
      ColonsAnywhere(a[1..], b);
    } else {
      assert (":" + b)[1..] == b && a + b == b && a + ":" + b == ":" + b;
    }
  }

  lemma {:induction false} CaseIrrelevant(a: seq<char>, b: seq<char>)
    requires |a| == |b| && forall i :: 0 <= i < |a| ==> Folded(a[i]) == Folded(b[i])
    ensures HexDigits(a) == HexDigits(b)
  {
    if a != [] {
      FoldedIsHex(a[0]);
      FoldedIsHex(b[0]);
      assert a[0] == ':' <==> b[0] == ':' by {
        assert Folded(':') == 0x3A;
      }
      CaseIrrelevant(a[1..], b[1..]);
    }
  }

  // What follows the twelfth digit does not matter.
  lemma {:induction false} TailIrrelevant(a: seq<char>, b: seq<char>, n: nat)
    requires |HexDigits(a)| >= n
    ensures |HexDigits(a + b)| >= n && HexDigits(a + b)[..n] == HexDigits(a)[..n]
  {
    if a != [] && n > 0 {
      assert (a + b)[1..] == a[1..] + b;
      if a[0] == ':' {
        TailIrrelevant(a[1..], b, n);
      } else {
        TailIrrelevant(a[1..], b, n - 1);
        assert HexDigits(a)[..n] == [Nibble(a[0])] + HexDigits(a[1..])[..n - 1];
        assert HexDigits(a + b)[..n] == [Nibble(a[0])] + HexDigits(a[1..] + b)[..n - 1];
      }
    }
  }
}
