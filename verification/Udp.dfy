// The UDP ports of OTG and OTR: the sender stamps a version 2 header into the payload, the
// receiver dispatches on the version byte and extracts the flow id and the sequence number.
module Udp {
  import opened Words
  import opened Packets
  import opened Wrappers

  const SHRT_MAX := 32767
  const VERSION_2: Byte := 2

  // The twelve bytes that follow the five of marker, version and compatibility slot.
  function V2Numbers(h: Host, flow: nat, num: nat): (w: seq<Byte>)
    ensures |w| == 12
  {
    Encode32(h, num) + Encode64(h, flow)
  }

  // d starts like a version 2 frame of the flow, as far as it goes; bytes 3 and 4 are free.
  ghost predicate IsV2Frame(h: Host, flow: nat, num: nat, d: seq<Byte>) {
    && (forall k :: 0 <= k < 3 && k < |d| ==> d[k] == [SYNC_BYTE, SYNC_BYTE, VERSION_2][k])
    && (forall k :: 0 <= k < 12 && k + 5 < |d| ==> d[k + 5] == V2Numbers(h, flow, num)[k])
  }

  // Stamps and sends; sent says what sendto() answered.
  method SendPacket(pkt: Packet, sent: bool) returns (datagram: Option<seq<Byte>>)
    requires pkt.Valid() && pkt.flowId < TWO_64
    requires sent ==> pkt.size >= 0
    modifies pkt`length, pkt`payload, pkt`offset, pkt.payload
    ensures pkt.Valid() && pkt.offset == 17
    ensures pkt.payload == old(pkt.payload) || fresh(pkt.payload)
    ensures pkt.length >= MIN_STAMPED_LENGTH
    ensures IsV2Frame(pkt.host, pkt.flowId, pkt.seqNum, pkt.payload[..])
    ensures old(pkt.length) >= MIN_STAMPED_LENGTH ==>
              pkt.payload == old(pkt.payload)
              && pkt.payload[3..5] == old(pkt.payload[3..5]) && pkt.payload[17..] == old(pkt.payload[17..])
    ensures datagram == if sent then Some(pkt.payload[..pkt.size]) else None
  {
    ghost var h, flow, num := pkt.host, pkt.flowId, pkt.seqNum;
    ghost var s0 := pkt.payload[..];
    pkt.StampPacket(VERSION_2);
    ghost var s1 := pkt.payload[..];
    var _ := pkt.StampInt16Val(pkt.flowId % SHRT_MAX, -1);
    ghost var s2 := pkt.payload[..];
    var _ := pkt.StampInt32Val(pkt.seqNum, -1);
    ghost var s3 := pkt.payload[..];
    var _ := pkt.StampInt64Val(pkt.flowId, -1);
    HeaderLayout(h, flow, num, s0, s1, s2, s3, pkt.payload[..]);
    datagram := if sent then Some(pkt.payload[..pkt.size]) else None;
  }

  // The four stamps together: the 16-bit number lands where the sequence number goes next.
  lemma HeaderLayout(h: Host, flow: nat, num: nat, s0: seq<Byte>, s1: seq<Byte>, s2: seq<Byte>, s3: seq<Byte>,
                     s4: seq<Byte>)
    requires Marked(s0, VERSION_2, s1)
    requires Stamped(s1, 5, Encode16(h, flow % SHRT_MAX), s2)
    requires Stamped(s2, 5, Encode32(h, num), s3)
    requires Stamped(s3, 9, Encode64(h, flow), s4)
    ensures |s4| == |s1| && IsV2Frame(h, flow, num, s4)
    ensures s4[3..5] == s1[3..5] && s4[17..] == s1[17..]
    ensures |s0| >= MIN_STAMPED_LENGTH ==> s1[3..5] == s0[3..5] && s1[17..] == s0[17..]
  {
    assert forall k :: 0 <= k < 3 ==> s1[k] == s1[..3][k];
    if |s0| >= MIN_STAMPED_LENGTH {
      assert forall k :: 3 <= k < |s0| ==> s1[k] == s1[3..][k - 3] == s0[3..][k - 3] == s0[k];
    }
  }

  // The flow id and sequence number the receiver makes of a received payload.
  function DecodeDatagram(h: Host, d: seq<Byte>): (r: (nat, nat)) {
    var version := StampOf(h, d);
    var start := if HasMarker(d) then 3 else 0;
    var (short, next) := Extract16(h, d, start);
    var (num, after) := Extract(h, d, next, false);
    if version == 1 then (Unsigned(short, TWO_64), Unsigned(num, TWO_64))
    else (Unsigned(Extract(h, d, after, true).0, TWO_64), Unsigned(num, TWO_64))
  }

  class UdpInPort {
    const maxPktLength: nat

    constructor (maxPktLength: nat)
      ensures this.maxPktLength == maxPktLength
    {
      this.maxPktLength := maxPktLength;
    }

    // What fits of a datagram into the receive buffer.
    static function Cut(d: seq<Byte>, room: nat): (c: seq<Byte>)
      ensures c <= d && |c| <= room && (c == d || |c| == room)
    {
      if |d| <= room then d else d[..room]
    }

    // incoming is what recvfrom() delivers: a datagram or an error.
    method NextPacket(pkt: Packet, incoming: Option<seq<Byte>>) returns (ok: bool)
      requires pkt.Valid()
      modifies pkt, pkt.payload
      ensures pkt.Valid() && ok == incoming.Some?
      ensures pkt.length == if old(pkt.length) >= maxPktLength then old(pkt.length) else maxPktLength
      ensures ok ==>
                var d := Cut(incoming.value, pkt.length);
                pkt.size == |d| && pkt.payload[..|d|] == d
                && (pkt.flowId, pkt.seqNum) == DecodeDatagram(pkt.host, d)
    {
      var buf := pkt.GetBufferPtr(maxPktLength);
      if incoming == None {
        return false;
      }
      var d := Cut(incoming.value, pkt.length);
      forall i | 0 <= i < |d| {
        buf[i] := d[i];
      }
      pkt.SetPayloadSize(|d|);
      assert pkt.payload[..|d|] == d;
      var versionStamp := pkt.CheckStamp();
      if versionStamp == 1 {
        var flow := pkt.ExtractInt16Val();
        pkt.flowId := Unsigned(flow, TWO_64);
        var num := pkt.ExtractInt32Val();
        pkt.seqNum := Unsigned(num, TWO_64);
      } else {
        // Version 2, and any version this receiver does not know.
        var _ := pkt.ExtractInt16Val();
        var num := pkt.ExtractInt32Val();
        pkt.seqNum := Unsigned(num, TWO_64);
        var flow := pkt.ExtractInt64Val();
        pkt.flowId := Unsigned(flow, TWO_64);
      }
      return true;
    }
  }

  // Which sequence numbers reach the receiver unharmed: those a 32-bit signed number can hold
  // (sign extension restores the very largest) and whose wire bytes are plain.
  predicate NumberReadable(sender: Host, receiver: Host, num: nat) {
    (num < TWO_32 / 2 || num >= TWO_64 - TWO_32 / 2) && Plain(receiver, Encode32(sender, num))
  }

  // What the decoder does, by length, on a payload with the marker and version 2, or any version
  // but 1; shorter ones have no marker.
  lemma DecodeByLength(h: Host, d: seq<Byte>)
    requires |d| >= 3 ==> d[0] == 0xAA && d[1] == 0xAA && d[2] != 1
    ensures |d| >= 17 ==> DecodeDatagram(h, d).0 == Unsigned(Decode64(h, d[9..17]), TWO_64)
    ensures |d| < 17 ==> DecodeDatagram(h, d).0 == 0
    ensures |d| >= 9 ==> DecodeDatagram(h, d).1 == Unsigned(Decode32(h, d[5..9]), TWO_64)
    ensures |d| < 9 ==> DecodeDatagram(h, d).1 == 0
  {
  }

  // Version 1: a flow id of 16 bits, then the number.
  lemma DecodeVersion1(h: Host, d: seq<Byte>)
    requires |d| >= 3 && d[0] == 0xAA && d[1] == 0xAA && d[2] == 1
    ensures DecodeDatagram(h, d).0 == if |d| >= 5 then Unsigned(Decode16(h, d[3..5]), TWO_64) else 0
    ensures DecodeDatagram(h, d).1 == if |d| >= 9 then Unsigned(Decode32(h, d[5..9]), TWO_64) else 0
  {
  }

  // Without a marker the fields of version 2 are taken from the start.
  lemma DecodeUnmarked(h: Host, d: seq<Byte>)
    requires |d| < 3 || d[0] != 0xAA || d[1] != 0xAA
    ensures DecodeDatagram(h, d).0 == if |d| >= 14 then Unsigned(Decode64(h, d[6..14]), TWO_64) else 0
    ensures DecodeDatagram(h, d).1 == if |d| >= 6 then Unsigned(Decode32(h, d[2..6]), TWO_64) else 0
  {
  }

  // What a receiver of the same byte order makes of any version 2 frame, full or cut short.
  lemma V2FrameDecodes(sender: Host, receiver: Host, flow: nat, num: nat, d: seq<Byte>)
    requires sender.bigEndian == receiver.bigEndian
    requires flow < TWO_64 && num < TWO_64
    requires IsV2Frame(sender, flow, num, d)
    ensures DecodeDatagram(receiver, d).0 == flow <==> |d| >= 17 || flow == 0
    ensures |d| >= 9 ==> (DecodeDatagram(receiver, d).1 == num <==> NumberReadable(sender, receiver, num))
    ensures |d| < 9 ==> DecodeDatagram(receiver, d).1 == 0
  {
    FrameMarker(sender, flow, num, d);
    DecodeByLength(receiver, d);
    if |d| >= 9 {
      FrameNumber(sender, flow, num, d);
      SequenceReadable(sender, receiver, num);
    }
    if |d| >= 17 {
      FrameFlow(sender, flow, num, d);
      FlowReadable(sender, receiver, flow);
    }
  }

  lemma FlowReadable(sender: Host, receiver: Host, flow: nat)
    requires sender.bigEndian == receiver.bigEndian && flow < TWO_64
    ensures Unsigned(Decode64(receiver, Encode64(sender, flow)), TWO_64) == flow
  {
    PowValues();
    assert Unsigned(flow, TWO_64) == flow;
    MemoryRoundTrip(sender, flow, 8);
    var w := Encode64(sender, flow);
    assert MemoryRead(receiver, w) == flow;
    UnsignedSigned(flow, TWO_64);
  }

  lemma FrameMarker(sender: Host, flow: nat, num: nat, d: seq<Byte>)
    requires IsV2Frame(sender, flow, num, d)
    ensures |d| >= 3 ==> d[0] == 0xAA && d[1] == 0xAA && d[2] == 2
  {
  }

  lemma FrameNumber(sender: Host, flow: nat, num: nat, d: seq<Byte>)
    requires IsV2Frame(sender, flow, num, d) && |d| >= 9
    ensures d[5..9] == Encode32(sender, num)
  {
    forall k | 0 <= k < 4
      ensures d[5..9][k] == Encode32(sender, num)[k]
    {
      assert d[k + 5] == V2Numbers(sender, flow, num)[k];
    }
  }

  lemma FrameFlow(sender: Host, flow: nat, num: nat, d: seq<Byte>)
    requires IsV2Frame(sender, flow, num, d) && |d| >= 17
    ensures d[9..17] == Encode64(sender, flow)
  {
    forall k | 0 <= k < 8
      ensures d[9..17][k] == Encode64(sender, flow)[k]
    {
      assert d[(k + 4) + 5] == V2Numbers(sender, flow, num)[k + 4];
    }
  }

  lemma SequenceReadable(sender: Host, receiver: Host, num: nat)
    requires sender.bigEndian == receiver.bigEndian && num < TWO_64
    ensures Unsigned(Decode32(receiver, Encode32(sender, num)), TWO_64) == num
            <==> NumberReadable(sender, receiver, num)
  {
    PowValues();
    var low := Unsigned(num, TWO_32);
    var w := Encode32(sender, num);
    MemoryRoundTrip(sender, low, 4);
    Decode32Exact(receiver, w);
    var got := Decode32(receiver, w);
    assert -(TWO_32 / 2) <= got < TWO_32 / 2;
    SignExtension(num, low, got);
  }

  // A 32-bit value, sign extended to 64 bits, equals num iff it is num's low word and num fits.
  lemma SignExtension(num: nat, low: nat, got: int)
    requires num < TWO_64 && low == num % TWO_32 && -(TWO_32 / 2) <= got < TWO_32 / 2
    ensures Unsigned(got, TWO_64) == num
            <==> (num < TWO_32 / 2 || num >= TWO_64 - TWO_32 / 2) && got == Signed(low, TWO_32)
  {
    if num >= TWO_64 - TWO_32 / 2 {
      assert low == num - (TWO_64 - TWO_32);
    }
  }

  // With signed chars the first numbers that fail are 32768 on little-endian hosts and 128
  // on big-endian ones; with unsigned chars every number below 2^31 is read exactly.
  lemma FirstNumbersReadable(sender: Host, receiver: Host, num: nat)
    requires sender.bigEndian == receiver.bigEndian
    ensures !receiver.signedChar && num < TWO_32 / 2 ==> NumberReadable(sender, receiver, num)
    ensures receiver.signedChar && !receiver.bigEndian && num <= 32767 ==> NumberReadable(sender, receiver, num)
    ensures receiver.signedChar && !receiver.bigEndian && num == 32768 ==> !NumberReadable(sender, receiver, num)
    ensures receiver.signedChar && receiver.bigEndian && num <= 127 ==> NumberReadable(sender, receiver, num)
    ensures receiver.signedChar && receiver.bigEndian && num == 128 ==> !NumberReadable(sender, receiver, num)
  {
    if num < TWO_32 {
      ToBytes4(num);
      assert Unsigned(num, TWO_32) == num;
      var w := Encode32(sender, num);
      assert sender.bigEndian ==> w[3] == num % 256;
      assert !sender.bigEndian ==> w[1] == num / 256 % 256;
    }
  }
}
