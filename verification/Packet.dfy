// The OTG packet: a byte buffer with a cursor into which numbers are stamped and from which
// the receiver extracts them again.
module Packets {
  import opened Words

  const SYNC_BYTE: Byte := 0xAA
  const MIN_STAMPED_LENGTH := 32
  const DEFAULT_PAYLOAD_SIZE := 512

  // ---------- The wire form of one number ----------

  // What a `char` holding byte b contributes once promoted to int.
  function CharValue(h: Host, b: Byte): int {
    if h.signedChar && b >= 128 then b as int - 256 else b as int
  }

  function Encode16(h: Host, v: int): (w: seq<Byte>)
    ensures |w| == 2
  {
    MemoryOrder(h, Unsigned(v, TWO_16), 2)
  }

  function Encode32(h: Host, v: int): (w: seq<Byte>)
    ensures |w| == 4
  {
    MemoryOrder(h, Unsigned(v, TWO_32), 4)
  }

  function Encode64(h: Host, v: int): (w: seq<Byte>)
    ensures |w| == 8
  {
    MemoryOrder(h, Unsigned(v, TWO_64), 8)
  }

  // What sign extension of the bytes after the first takes away from the assembled word.
  function Borrow(h: Host, w: seq<Byte>): nat
    requires |w| == 2 || |w| == 4
  {
    if !h.signedChar then 0
    else if |w| == 2 then if w[1] >= 128 then TWO_8 else 0
    else (if w[1] >= 128 then 0x100_0000 else 0) + (if w[2] >= 128 then TWO_16 else 0)
         + (if w[3] >= 128 then TWO_8 else 0)
  }

  // The word the extraction assembles from the wire bytes.
  function Assembled(h: Host, w: seq<Byte>): (r: nat)
    requires |w| == 2 || |w| == 4
    ensures r < Pow256(|w|)
  {
    (FromBytes(w) - Borrow(h, w)) % Pow256(|w|)
  }

  function Decode16(h: Host, w: seq<Byte>): int
    requires |w| == 2
  {
    PowValues();
    Signed(HostToNet(h, Assembled(h, w), 2), TWO_16)
  }

  function Decode32(h: Host, w: seq<Byte>): int
    requires |w| == 4
  {
    PowValues();
    Signed(HostToNet(h, Assembled(h, w), 4), TWO_32)
  }

  function Decode64(h: Host, w: seq<Byte>): int
    requires |w| == 8
  {
    PowValues();
    MemoryReadBound(h, w);
    Signed(MemoryRead(h, w), TWO_64)
  }

  // The wire bytes that a host with signed chars reads without loss.
  predicate Plain(h: Host, w: seq<Byte>) {
    h.signedChar ==> forall i :: 1 <= i < |w| ==> w[i] < 128
  }

  // The sum of shifted chars, as the C code writes it, is the word short of the borrow.
  lemma CharSum32(h: Host, w: seq<Byte>)
    requires |w| == 4
    ensures (CharValue(h, w[0]) * 0x100_0000 + CharValue(h, w[1]) * 0x1_0000
             + CharValue(h, w[2]) * 0x100 + CharValue(h, w[3])) % TWO_32 == Assembled(h, w)
  {
    PowValues();
    FromBytes4(w);
    var sum := CharValue(h, w[0]) * 0x100_0000 + CharValue(h, w[1]) * 0x1_0000
               + CharValue(h, w[2]) * 0x100 + CharValue(h, w[3]);
    var word := FromBytes(w) - Borrow(h, w);
    assert sum == word || sum == word - TWO_32;
  }

  lemma CharSum16(h: Host, w: seq<Byte>)
    requires |w| == 2
    ensures (CharValue(h, w[0]) * 0x100 + CharValue(h, w[1])) % TWO_16 == Assembled(h, w)
  {
    PowValues();
    assert w[..1][..0] == [] && FromBytes(w[..1]) == w[0];
    assert FromBytes(w) == 256 * (w[0] as int) + w[1];
  }

  // The assembled word is the true one exactly when no byte after the first is 128 or more.
  lemma AssembledExact(h: Host, w: seq<Byte>)
    requires |w| == 2 || |w| == 4
    ensures FromBytes(w) < Pow256(|w|)
    ensures Assembled(h, w) == FromBytes(w) <==> Plain(h, w)
  {
    PowValues();
    ToFromBytes(w);
    BorrowIffNotPlain(h, w);
    SubtractMod(FromBytes(w), Borrow(h, w), Pow256(|w|));
  }

  lemma BorrowIffNotPlain(h: Host, w: seq<Byte>)
    requires |w| == 2 || |w| == 4
    ensures Borrow(h, w) < Pow256(|w|)
    ensures Borrow(h, w) == 0 <==> Plain(h, w)
  {
    PowValues();
  }

  lemma SubtractMod(a: nat, b: nat, modulus: nat)
    requires modulus == TWO_16 || modulus == TWO_32
    requires a < modulus && b < modulus
    ensures (a - b) % modulus == a <==> b == 0
  {
  }

  lemma NetInjective(h: Host, a: nat, b: nat, n: nat)
    requires a < Pow256(n) && b < Pow256(n)
    requires HostToNet(h, a, n) == HostToNet(h, b, n)
    ensures a == b
  {
    NetBytes(h, a, n);
    NetBytes(h, b, n);
    MemoryRoundTrip(h, a, n);
    MemoryRoundTrip(h, b, n);
  }

  // A 32-bit extraction yields the number the bytes hold in memory order iff they are plain.
  lemma Decode32Exact(h: Host, w: seq<Byte>)
    requires |w| == 4
    ensures MemoryRead(h, w) < TWO_32
    ensures Decode32(h, w) == Signed(MemoryRead(h, w), TWO_32) <==> Plain(h, w)
  {
    PowValues();
    MemoryReadBound(h, w);
    AssembledExact(h, w);
    NetOfBytes(h, w);
    if Decode32(h, w) == Signed(MemoryRead(h, w), TWO_32) {
      NetInjective(h, Assembled(h, w), FromBytes(w), 4);
    }
  }

  lemma Decode16Exact(h: Host, w: seq<Byte>)
    requires |w| == 2
    ensures MemoryRead(h, w) < TWO_16
    ensures Decode16(h, w) == Signed(MemoryRead(h, w), TWO_16) <==> Plain(h, w)
  {
    PowValues();
    MemoryReadBound(h, w);
    AssembledExact(h, w);
    NetOfBytes(h, w);
    if Decode16(h, w) == Signed(MemoryRead(h, w), TWO_16) {
      NetInjective(h, Assembled(h, w), FromBytes(w), 2);
    }
  }

  // Between hosts of one byte order a 32-bit number survives iff its wire bytes are plain.
  lemma RoundTrip32(sender: Host, receiver: Host, v: int)
    requires sender.bigEndian == receiver.bigEndian && Fits(v, TWO_32)
    ensures Decode32(receiver, Encode32(sender, v)) == v <==> Plain(receiver, Encode32(sender, v))
  {
    PowValues();
    MemoryRoundTrip(sender, Unsigned(v, TWO_32), 4);
    SignedUnsigned(v, TWO_32);
    Decode32Exact(receiver, Encode32(sender, v));
  }

  lemma RoundTrip16(sender: Host, receiver: Host, v: int)
    requires sender.bigEndian == receiver.bigEndian && Fits(v, TWO_16)
    ensures Decode16(receiver, Encode16(sender, v)) == v <==> Plain(receiver, Encode16(sender, v))
  {
    PowValues();
    MemoryRoundTrip(sender, Unsigned(v, TWO_16), 2);
    SignedUnsigned(v, TWO_16);
    Decode16Exact(receiver, Encode16(sender, v));
  }

  // A 64-bit number always survives between hosts of one byte order, whatever their chars.
  lemma RoundTrip64(sender: Host, receiver: Host, v: int)
    requires sender.bigEndian == receiver.bigEndian && Fits(v, TWO_64)
    ensures Decode64(receiver, Encode64(sender, v)) == v
  {
    PowValues();
    MemoryRoundTrip(sender, Unsigned(v, TWO_64), 8);
    SignedUnsigned(v, TWO_64);
  }

  // Hosts of opposite byte order see the number with its bytes reversed.
  lemma OppositeOrder(sender: Host, receiver: Host, v: int)
    requires sender.bigEndian != receiver.bigEndian
    ensures ToBytes(Unsigned(Decode64(receiver, Encode64(sender, v)), TWO_64), 8)
            == Reverse(ToBytes(Unsigned(v, TWO_64), 8))
    ensures Plain(receiver, Encode32(sender, v)) ==>
              ToBytes(Unsigned(Decode32(receiver, Encode32(sender, v)), TWO_32), 4)
              == Reverse(ToBytes(Unsigned(v, TWO_32), 4))
  {
    PowValues();
    OppositeRead(sender, receiver, Unsigned(v, TWO_64), 8);
    OppositeRead(sender, receiver, Unsigned(v, TWO_32), 4);
    var w4, w8 := Encode32(sender, v), Encode64(sender, v);
    Decode32Exact(receiver, w4);
    MemoryReadBound(receiver, w8);
    UnsignedSigned(MemoryRead(receiver, w8), TWO_64);
    UnsignedSigned(MemoryRead(receiver, w4), TWO_32);
  }

  lemma OppositeRead(sender: Host, receiver: Host, v: nat, n: nat)
    requires sender.bigEndian != receiver.bigEndian
    ensures ToBytes(MemoryRead(receiver, MemoryOrder(sender, v, n)), n) == Reverse(ToBytes(v, n))
  {
    var w := MemoryOrder(sender, v, n);
    ToFromBytes(w);
    ToFromBytes(Reverse(w));
  }

  // ---------- Buffers ----------

  // One stamp: the buffer grows, losing its content, only when the bytes do not fit.
  ghost predicate Stamped(before: seq<Byte>, at: nat, bytes: seq<Byte>, after: seq<Byte>) {
    if at + |bytes| <= |before| then after == Overwrite(before, at, bytes)
    else |after| == at + |bytes| && after[at..] == bytes
  }

  // The three marker bytes, in a buffer of at least 32.
  ghost predicate Marked(before: seq<Byte>, version: Byte, after: seq<Byte>) {
    && |after| == (if |before| >= MIN_STAMPED_LENGTH then |before| else MIN_STAMPED_LENGTH)
    && after[..3] == [SYNC_BYTE, SYNC_BYTE, version]
    && (|before| >= MIN_STAMPED_LENGTH ==> after[3..] == before[3..])
  }

  predicate HasMarker(payload: seq<Byte>) {
    |payload| >= 3 && payload[0] == SYNC_BYTE && payload[1] == SYNC_BYTE
  }

  // The version byte behind the marker, as the host's char; without a marker -1, which with
  // signed chars is also what a version byte of 255 gives.
  function StampOf(h: Host, payload: seq<Byte>): (version: int) {
    if HasMarker(payload) then CharValue(h, payload[2]) else -1
  }

  // One byte of a word, shifted down from the given weight.
  function ByteAt(nv: nat, weight: nat): Byte
    requires weight > 0
  {
    nv / weight % 256
  }

  function LowBytes(nv: nat): (w: seq<Byte>)
    ensures |w| == 4
  {
    [ByteAt(nv, 0x100_0000), ByteAt(nv, 0x1_0000), ByteAt(nv, 0x100), ByteAt(nv, 1)]
  }

  function HighBytes(nv: nat): (w: seq<Byte>)
    ensures |w| == 4
  {
    [ByteAt(nv, 0x100_0000_0000_0000), ByteAt(nv, 0x1_0000_0000_0000),
     ByteAt(nv, 0x100_0000_0000), ByteAt(nv, 0x1_0000_0000)]
  }

  lemma Encode64Bytes(h: Host, val: int)
    ensures Encode64(h, val) == HighBytes(HostToNet64(h, Unsigned(val, TWO_64)))
                                + LowBytes(HostToNet64(h, Unsigned(val, TWO_64)))
  {
    NetBytes64(h, Unsigned(val, TWO_64));
    ToBytes8(HostToNet64(h, Unsigned(val, TWO_64)));
  }

  lemma OverwriteTwice(s: seq<Byte>, at: nat, a: seq<Byte>, b: seq<Byte>)
    requires at + |a| + |b| <= |s|
    ensures Overwrite(Overwrite(s, at, a), at + |a|, b) == Overwrite(s, at, a + b)
  {
  }

  // One turn of the 64-bit extraction loop: shift left and add the next byte, without overflow.
  lemma ShiftIn(w: seq<Byte>, i: nat)
    requires i < |w| <= 8
    ensures (FromBytes(w[..i]) * TWO_8 % TWO_64 + w[i]) % TWO_64 == FromBytes(w[..i + 1])
  {
    var prefix := w[..i + 1];
    assert prefix[..i] == w[..i];
    ToFromBytes(prefix);
    PowMonotone(i + 1, 8);
    PowValues();
    NoWrap(FromBytes(w[..i]), w[i]);
  }

  lemma NoWrap(q: nat, b: Byte)
    requires q * TWO_8 + b < TWO_64
    ensures (q * TWO_8 % TWO_64 + b) % TWO_64 == q * TWO_8 + b
  {
  }

  lemma {:induction false} PowMonotone(m: nat, n: nat)
    requires m <= n
    ensures Pow256(m) <= Pow256(n)
    decreases n - m
  {
    if m < n {
      PowMonotone(m + 1, n);
    }
  }

  // Two and four writes through an advancing pointer.
  method Poke2(p: array<Byte>, at: nat, b0: Byte, b1: Byte)
    requires at + 2 <= p.Length
    modifies p
    ensures p[..] == Overwrite(old(p[..]), at, [b0, b1])
  {
    p[at] := b0;
    p[at + 1] := b1;
  }

  method Poke4(p: array<Byte>, at: nat, b0: Byte, b1: Byte, b2: Byte, b3: Byte)
    requires at + 4 <= p.Length
    modifies p
    ensures p[..] == Overwrite(old(p[..]), at, [b0, b1, b2, b3])
  {
    p[at] := b0;
    p[at + 1] := b1;
    p[at + 2] := b2;
    p[at + 3] := b3;
  }

  // One extraction from the received bytes: the value and the new cursor.
  function Extract(h: Host, payload: seq<Byte>, cursor: nat, wide: bool): (int, nat) {
    var n := if wide then 8 else 4;
    if |payload| < cursor + n then (0, cursor)
    else if wide then (Decode64(h, payload[cursor..cursor + 8]), cursor + 8)
    else (Decode32(h, payload[cursor..cursor + 4]), cursor + 4)
  }

  function Extract16(h: Host, payload: seq<Byte>, cursor: nat): (int, nat) {
    if |payload| < cursor + 2 then (0, cursor) else (Decode16(h, payload[cursor..cursor + 2]), cursor + 2)
  }

  class Packet {
    const host: Host
    var ts: real
    var txTime: real
    var size: int
    var length: int
    var payload: array<Byte>
    var flowId: nat
    var seqNum: nat
    var offset: nat

    ghost predicate Valid()
      reads this
    {
      length == payload.Length && size <= length
    }

    // The bytes in use.
    ghost function Received(): seq<Byte>
      requires Valid()
      reads this, payload
    {
      if size < 0 then [] else payload[..size]
    }

    constructor (host: Host, bufferLength: nat)
      ensures Valid() && fresh(payload)
      ensures this.host == host && length == bufferLength
      ensures size == 0 && offset == 0 && flowId == 0 && seqNum == 0 && ts == 0.0 && txTime == 0.0
    {
      this.host := host;
      length := bufferLength;
      payload := new Byte[bufferLength];
      ts, txTime, size, flowId, seqNum, offset := 0.0, 0.0, 0, 0, 0, 0;
    }

    method Reset()
      requires Valid()
      modifies this`ts, this`txTime, this`size, this`flowId, this`seqNum, this`offset
      ensures Valid()
      ensures size == 0 && offset == 0 && flowId == 0 && seqNum == 0 && ts == 0.0 && txTime == 0.0
    {
      ts, txTime, size, flowId, seqNum, offset := 0.0, 0.0, 0, 0, 0, 0;
    }

    method SetPayloadSize(newSize: int)
      requires Valid()
      modifies this`size, this`length, this`payload
      ensures Valid() && size == newSize
      ensures newSize <= old(length) ==> payload == old(payload) && length == old(length)
      ensures newSize > old(length) ==> fresh(payload) && length == 3 * newSize / 2
    {
      size := newSize;
      if newSize > length {
        length := 3 * newSize / 2;
        payload := new Byte[length];
      }
    }

    // The buffer, reallocated (and its content dropped) when it is too short.
    method GetBufferPtr(minLength: int) returns (p: array<Byte>)
      requires Valid()
      modifies this`length, this`payload
      ensures Valid() && p == payload
      ensures old(length) >= minLength ==> payload == old(payload) && length == old(length)
      ensures old(length) < minLength ==> fresh(payload) && length == minLength
    {
      if length >= minLength {
        return payload;
      }
      payload := new Byte[minLength];
      length := minLength;
      return payload;
    }

    method StampPacket(version: Byte)
      requires Valid()
      modifies this`length, this`payload, this`offset, payload
      ensures Valid() && offset == 3
      ensures payload == old(payload) || fresh(payload)
      ensures old(length) >= MIN_STAMPED_LENGTH ==> payload == old(payload)
      ensures Marked(old(payload[..]), version, payload[..])
    {
      var p := GetBufferPtr(MIN_STAMPED_LENGTH);
      p[0] := SYNC_BYTE;
      p[1] := SYNC_BYTE;
      p[2] := version;
      offset := 3;
      assert payload[..][..3] == [SYNC_BYTE, SYNC_BYTE, version];
    }

    method StampInt64Val(val: int, at: int) returns (pos: nat)
      requires Valid()
      modifies this`length, this`payload, this`offset, payload
      ensures Valid()
      ensures payload == old(payload) || fresh(payload)
      ensures pos == if at < 0 then old(offset) else at
      ensures offset == if at < 0 then old(offset) + 8 else old(offset)
      ensures pos + 8 <= old(length) ==> payload == old(payload)
      ensures Stamped(old(payload[..]), pos, Encode64(host, val), payload[..])
    {
      var nv := HostToNet64(host, Unsigned(val, TWO_64));
      if at < 0 {
        pos := offset;
        offset := offset + 8;
      } else {
        pos := at;
      }
      Encode64Bytes(host, val);
      var p := GetBufferPtr(8 + pos);
      ghost var got := p[..];
      Poke4(p, pos, ByteAt(nv, 0x100_0000_0000_0000), ByteAt(nv, 0x1_0000_0000_0000),
            ByteAt(nv, 0x100_0000_0000), ByteAt(nv, 0x1_0000_0000));
      Poke4(p, pos + 4, ByteAt(nv, 0x100_0000), ByteAt(nv, 0x1_0000), ByteAt(nv, 0x100), ByteAt(nv, 1));
      OverwriteTwice(got, pos, HighBytes(nv), LowBytes(nv));
    }

    method StampInt32Val(val: int, at: int) returns (pos: nat)
      requires Valid()
      modifies this`length, this`payload, this`offset, payload
      ensures Valid()
      ensures payload == old(payload) || fresh(payload)
      ensures pos == if at < 0 then old(offset) else at
      ensures offset == if at < 0 then old(offset) + 4 else old(offset)
      ensures pos + 4 <= old(length) ==> payload == old(payload)
      ensures Stamped(old(payload[..]), pos, Encode32(host, val), payload[..])
    {
      PowValues();
      var nv := HostToNet(host, Unsigned(val, TWO_32), 4);
      if at < 0 {
        pos := offset;
        offset := offset + 4;
      } else {
        pos := at;
      }
      NetBytes(host, Unsigned(val, TWO_32), 4);
      ToBytes4(nv);
      var p := GetBufferPtr(4 + pos);
      Poke4(p, pos, ByteAt(nv, 0x100_0000), ByteAt(nv, 0x1_0000), ByteAt(nv, 0x100), ByteAt(nv, 1));
    }

    // Writes at the cursor, after it was advanced: not at the offset it returns.
    method StampInt16Val(val: int, at: int) returns (pos: nat)
      requires Valid()
      modifies this`length, this`payload, this`offset, payload
      ensures Valid()
      ensures payload == old(payload) || fresh(payload)
      ensures pos == if at < 0 then old(offset) else at
      ensures offset == if at < 0 then old(offset) + 2 else old(offset)
      ensures offset + 2 <= old(length) ==> payload == old(payload)
      ensures Stamped(old(payload[..]), offset, Encode16(host, val), payload[..])
    {
      PowValues();
      var nv := HostToNet(host, Unsigned(val, TWO_16), 2);
      if at < 0 {
        pos := offset;
        offset := offset + 2;
      } else {
        pos := at;
      }
      NetBytes(host, Unsigned(val, TWO_16), 2);
      ToBytes2(nv);
      var p := GetBufferPtr(2 + offset);
      Poke2(p, offset, ByteAt(nv, 0x100), ByteAt(nv, 1));
    }

    // The cursor is left behind the marker, or at 0 if there is none.
    method CheckStamp() returns (version: int)
      requires Valid()
      modifies this`offset
      ensures version == StampOf(host, Received())
      ensures offset == if HasMarker(Received()) then 3 else 0
    {
      offset := 0;
      if size < 3 {
        return -1;
      }
      if payload[0] == SYNC_BYTE && payload[1] == SYNC_BYTE {
        offset := 3;
        return CharValue(host, payload[2]);
      }
      return -1;
    }

    method ExtractInt64Val() returns (val: int)
      requires Valid()
      modifies this`offset
      ensures (val, offset) == Extract(host, Received(), old(offset), true)
      ensures if size < old(offset) + 8 then val == 0 && offset == old(offset)
              else val == Decode64(host, payload[old(offset)..old(offset) + 8]) && offset == old(offset) + 8
    {
      if size < offset + 8 {
        return 0;
      }
      var start := offset;
      ghost var w := payload[start..start + 8];
      var p := start;
      var nv := 0;
      var i := 0;
      while i < 8
        invariant i <= 8 && p == start + i && offset == start
        invariant nv == FromBytes(w[..i])
      {
        ShiftIn(w, i);
        nv := nv * TWO_8 % TWO_64;
        nv := (nv + payload[p]) % TWO_64;
        p := p + 1;
        i := i + 1;
      }
      assert w[..8] == w;
      NetOfBytes64(host, w);
      var hv := HostToNet64(host, nv);
      offset := start + 8;
      assert Received()[start..start + 8] == w;
      val := Signed(hv, TWO_64);
    }

    method ExtractInt32Val() returns (val: int)
      requires Valid()
      modifies this`offset
      ensures (val, offset) == Extract(host, Received(), old(offset), false)
      ensures if size < old(offset) + 4 then val == 0 && offset == old(offset)
              else val == Decode32(host, payload[old(offset)..old(offset) + 4]) && offset == old(offset) + 4
    {
      if size < offset + 4 {
        return 0;
      }
      PowValues();
      assert Received()[offset..offset + 4] == payload[offset..offset + 4];
      CharSum32(host, payload[offset..offset + 4]);
      SumMod32(CharValue(host, payload[offset]) * 0x100_0000, CharValue(host, payload[offset + 1]) * 0x1_0000,
               CharValue(host, payload[offset + 2]) * 0x100, CharValue(host, payload[offset + 3]));
      var nv := CharValue(host, payload[offset]) * 0x100_0000 % TWO_32;
      nv := (nv + CharValue(host, payload[offset + 1]) * 0x1_0000) % TWO_32;
      nv := (nv + CharValue(host, payload[offset + 2]) * 0x100) % TWO_32;
      nv := (nv + CharValue(host, payload[offset + 3])) % TWO_32;
      assert nv == Assembled(host, payload[offset..offset + 4]);
      var hv := HostToNet(host, nv, 4);
      offset := offset + 4;
      return Signed(hv, TWO_32);
    }

    method ExtractInt16Val() returns (val: int)
      requires Valid()
      modifies this`offset
      ensures (val, offset) == Extract16(host, Received(), old(offset))
      ensures if size < old(offset) + 2 then val == 0 && offset == old(offset)
              else val == Decode16(host, payload[old(offset)..old(offset) + 2]) && offset == old(offset) + 2
    {
      if size < offset + 2 {
        return 0;
      }
      PowValues();
      assert Received()[offset..offset + 2] == payload[offset..offset + 2];
      CharSum16(host, payload[offset..offset + 2]);
      AddMod16(CharValue(host, payload[offset]) * 0x100, CharValue(host, payload[offset + 1]));
      var nv := CharValue(host, payload[offset]) * 0x100 % TWO_16;
      nv := (nv + CharValue(host, payload[offset + 1])) % TWO_16;
      assert nv == Assembled(host, payload[offset..offset + 2]);
      var hv := HostToNet(host, nv, 2);
      offset := offset + 2;
      return Signed(hv, TWO_16);
    }
  }
}
