// Bytes, machine words and the byte-order functions of the hosts the programs run on.
module Words {

  type Byte = b: int | 0 <= b < 256

  const TWO_8 := 0x100
  const TWO_16 := 0x1_0000
  const TWO_32 := 0x1_0000_0000
  const TWO_64 := 0x1_0000_0000_0000_0000

  // What the C code leaves to the platform: the byte order, and whether plain `char` is signed.
  datatype Host = Host(bigEndian: bool, signedChar: bool)

  function Pow256(n: nat): (p: nat)
    ensures p > 0
  {
    if n == 0 then 1 else 256 * Pow256(n - 1)
  }

  // The n low bytes of v, most significant first.
  function ToBytes(v: nat, n: nat): (w: seq<Byte>)
    ensures |w| == n
  {
    if n == 0 then [] else ToBytes(v / 256, n - 1) + [v % 256]
  }

  // The number whose bytes, most significant first, are w.
  function FromBytes(w: seq<Byte>): nat {
    if w == [] then 0 else FromBytes(w[..|w| - 1]) * 256 + w[|w| - 1]
  }

  function Reverse<T>(s: seq<T>): (r: seq<T>)
    ensures |r| == |s|
    ensures forall i :: 0 <= i < |s| ==> r[i] == s[|s| - 1 - i]
  {
    seq(|s|, i requires 0 <= i < |s| => s[|s| - 1 - i])
  }

  lemma ReverseTwice<T>(s: seq<T>)
    ensures Reverse(Reverse(s)) == s
  {
  }

  // Writes bs into s at position at.
  function Overwrite(s: seq<Byte>, at: nat, bs: seq<Byte>): (r: seq<Byte>)
    requires at + |bs| <= |s|
    ensures |r| == |s|
    ensures forall k :: 0 <= k < |s| ==> r[k] == if at <= k < at + |bs| then bs[k - at] else s[k]
  {
    s[..at] + bs + s[at + |bs|..]
  }

  lemma {:induction false} FromToBytes(v: nat, n: nat)
    requires v < Pow256(n)
    ensures FromBytes(ToBytes(v, n)) == v
  {
    if n > 0 {
      FromToBytes(v / 256, n - 1);
      assert ToBytes(v, n)[..n - 1] == ToBytes(v / 256, n - 1);
    }
  }

  lemma {:induction false} ToFromBytes(w: seq<Byte>)
    ensures FromBytes(w) < Pow256(|w|)
    ensures ToBytes(FromBytes(w), |w|) == w
  {
    if w != [] {
      ToFromBytes(w[..|w| - 1]);
      assert w == w[..|w| - 1] + [w[|w| - 1]];
    }
  }

  lemma PowValues()
    ensures Pow256(2) == TWO_16 && Pow256(4) == TWO_32 && Pow256(8) == TWO_64
  {
    assert Pow256(1) == 256 && Pow256(3) == 0x100_0000;
    assert Pow256(5) == 0x100_0000_0000 && Pow256(6) == 0x1_0000_0000_0000;
    assert Pow256(7) == 0x100_0000_0000_0000;
  }

  lemma ToBytes2(v: nat)
    ensures ToBytes(v, 2) == [v / 0x100 % 256, v % 256]
  {
    assert ToBytes(v / 256, 1) == [v / 256 % 256];
  }

  lemma ToBytes4(v: nat)
    ensures ToBytes(v, 4) == [v / 0x100_0000 % 256, v / 0x1_0000 % 256, v / 0x100 % 256, v % 256]
  {
    var q := v / 0x1_0000;
    assert ToBytes(v, 4) == ToBytes(v / 256, 3) + [v % 256];
    assert ToBytes(v / 256, 3) == ToBytes(v / 256 / 256, 2) + [v / 256 % 256];
    assert v / 256 / 256 == q;
    ToBytes2(q);
    assert q / 0x100 == v / 0x100_0000;
  }

  lemma ToBytes8(v: nat)
    ensures ToBytes(v, 8) ==
            [v / 0x100_0000_0000_0000 % 256, v / 0x1_0000_0000_0000 % 256,
             v / 0x100_0000_0000 % 256, v / 0x1_0000_0000 % 256,
             v / 0x100_0000 % 256, v / 0x1_0000 % 256, v / 0x100 % 256, v % 256]
  {
    var q := v / TWO_32;
    ToBytesSplit(v);
    ToBytes4(q);
    ToBytes4(v);
    assert q / 0x100_0000 == v / 0x100_0000_0000_0000;
    assert q / 0x1_0000 == v / 0x1_0000_0000_0000;
    assert q / 0x100 == v / 0x100_0000_0000;
  }

  // Eight bytes are the four of the high word followed by the four of the low word.
  lemma {:induction false} ToBytesSplit(v: nat)
    ensures ToBytes(v, 8) == ToBytes(v / TWO_32, 4) + ToBytes(v, 4)
  {
    var b := v / 256;
    var c := b / 256;
    var d := c / 256;
    var e := d / 256;
    assert ToBytes(v, 8) == ToBytes(b, 7) + [v % 256];
    assert ToBytes(b, 7) == ToBytes(c, 6) + [b % 256];
    assert ToBytes(c, 6) == ToBytes(d, 5) + [c % 256];
    assert ToBytes(d, 5) == ToBytes(e, 4) + [d % 256];
    assert e == v / TWO_32;
    assert ToBytes(v, 4) == ToBytes(b, 3) + [v % 256];
    assert ToBytes(b, 3) == ToBytes(c, 2) + [b % 256];
    assert ToBytes(c, 2) == ToBytes(d, 1) + [c % 256];
    assert ToBytes(d, 1) == [d % 256];
  }

  lemma FromBytes4(w: seq<Byte>)
    requires |w| == 4
    ensures FromBytes(w) == 0x100_0000 * (w[0] as int) + 0x1_0000 * (w[1] as int) + 0x100 * (w[2] as int) + w[3]
  {
    assert w[..3][..2] == w[..2] && w[..2][..1] == w[..1] && w[..1][..0] == [];
    assert FromBytes(w[..1]) == w[0];
    assert FromBytes(w[..2]) == 256 * (w[0] as int) + w[1];
    assert FromBytes(w[..3]) == 256 * (256 * (w[0] as int) + w[1]) + w[2];
  }

  // htons, htonl and their inverses: one operation, the identity or the reversal of n bytes.
  function HostToNet(h: Host, v: nat, n: nat): (r: nat)
    requires v < Pow256(n)
    ensures r < Pow256(n)
  {
    ToFromBytes(Reverse(ToBytes(v, n)));
    if h.bigEndian then v else FromBytes(Reverse(ToBytes(v, n)))
  }

  // The 64-bit variant, built from two 32-bit swaps (both directions have the same body).
  function HostToNet64(h: Host, v: nat): (r: nat)
    requires v < TWO_64
    ensures r < TWO_64
  {
    PowValues();
    if h.bigEndian then v
    else HostToNet(h, v % TWO_32, 4) * TWO_32 + HostToNet(h, v / TWO_32, 4)
  }

  // The order in which a host keeps the bytes of a word in memory.
  function MemoryOrder(h: Host, v: nat, n: nat): (w: seq<Byte>)
    ensures |w| == n
  {
    if h.bigEndian then ToBytes(v, n) else Reverse(ToBytes(v, n))
  }

  // The word a host reads back from n bytes of memory.
  function MemoryRead(h: Host, w: seq<Byte>): nat {
    if h.bigEndian then FromBytes(w) else FromBytes(Reverse(w))
  }

  lemma MemoryRoundTrip(h: Host, v: nat, n: nat)
    requires v < Pow256(n)
    ensures MemoryRead(h, MemoryOrder(h, v, n)) == v
  {
    FromToBytes(v, n);
    ReverseTwice(ToBytes(v, n));
  }

  lemma MemoryReadBound(h: Host, w: seq<Byte>)
    ensures MemoryRead(h, w) < Pow256(|w|)
  {
    ToFromBytes(w);
    ToFromBytes(Reverse(w));
  }

  // Writing the network-order word most significant byte first gives the host's memory order,
  // so on a little-endian host the bytes go out least significant first.
  lemma NetBytes(h: Host, v: nat, n: nat)
    requires v < Pow256(n)
    ensures ToBytes(HostToNet(h, v, n), n) == MemoryOrder(h, v, n)
  {
    ToFromBytes(Reverse(ToBytes(v, n)));
  }

  lemma NetOfBytes(h: Host, w: seq<Byte>)
    ensures FromBytes(w) < Pow256(|w|)
    ensures HostToNet(h, FromBytes(w), |w|) == MemoryRead(h, w)
  {
    ToFromBytes(w);
  }

  lemma LowByteApart(m: nat, r: nat)
    ensures (256 * m + r) / 256 == m + r / 256 && (256 * m + r) % 256 == r % 256
  {
  }

  lemma {:induction false} ToBytesLow(q: nat, r: nat, n: nat)
    ensures ToBytes(q * Pow256(n) + r, n) == ToBytes(r, n)
  {
    if n > 0 {
      var m := q * Pow256(n - 1);
      assert q * Pow256(n) == 256 * m;
      LowByteApart(m, r);
      ToBytesLow(q, r / 256, n - 1);
    }
  }

  lemma ToBytesMod(v: nat)
    ensures ToBytes(v % TWO_32, 4) == ToBytes(v, 4)
  {
    PowValues();
    ToBytesLow(v / TWO_32, v % TWO_32, 4);
  }

  // The two 32-bit swaps reverse all eight bytes.
  lemma NetBytes64(h: Host, v: nat)
    requires v < TWO_64
    ensures ToBytes(HostToNet64(h, v), 8) == MemoryOrder(h, v, 8)
  {
    PowValues();
    if !h.bigEndian {
      var lo, hi := HostToNet(h, v % TWO_32, 4), HostToNet(h, v / TWO_32, 4);
      var r := HostToNet64(h, v);
      assert r == lo * TWO_32 + hi;
      assert r / TWO_32 == lo && r % TWO_32 == hi;
      ToBytesSplit(r);
      ToBytesMod(r);
      NetBytes(h, v % TWO_32, 4);
      NetBytes(h, v / TWO_32, 4);
      ToBytesMod(v);
      ToBytesSplit(v);
      assert Reverse(ToBytes(v, 4)) + Reverse(ToBytes(v / TWO_32, 4)) == Reverse(ToBytes(v, 8));
    }
  }

  // otg_ntohll undoes otg_htonll on the same host.
  lemma Net64RoundTrip(h: Host, v: nat)
    requires v < TWO_64
    ensures HostToNet64(h, HostToNet64(h, v)) == v
  {
    PowValues();
    var r := HostToNet64(h, v);
    NetBytes64(h, v);
    NetBytes64(h, r);
    ReverseTwice(ToBytes(v, 8));
    FromToBytes(v, 8);
    FromToBytes(HostToNet64(h, r), 8);
  }

  lemma NetOfBytes64(h: Host, w: seq<Byte>)
    requires |w| == 8
    ensures FromBytes(w) < TWO_64
    ensures HostToNet64(h, FromBytes(w)) == MemoryRead(h, w)
  {
    PowValues();
    ToFromBytes(w);
    NetBytes64(h, FromBytes(w));
    FromToBytes(HostToNet64(h, FromBytes(w)), 8);
  }

  // Two's complement views.
  function Unsigned(v: int, modulus: nat): nat
    requires modulus > 0
  {
    v % modulus
  }

  function Signed(v: nat, modulus: nat): int
    requires v < modulus
  {
    if v < modulus / 2 then v else v - modulus
  }

  predicate Fits(v: int, modulus: nat) {
    -(modulus / 2) <= v < modulus / 2
  }

  lemma SignedUnsigned(v: int, modulus: nat)
    requires modulus == TWO_16 || modulus == TWO_32 || modulus == TWO_64
    requires Fits(v, modulus)
    ensures Signed(Unsigned(v, modulus), modulus) == v
  {
  }

  lemma UnsignedSigned(v: nat, modulus: nat)
    requires modulus == TWO_16 || modulus == TWO_32 || modulus == TWO_64
    requires v < modulus
    ensures Unsigned(Signed(v, modulus), modulus) == v
  {
  }

  // Adding term by term modulo 2^32, as unsigned C arithmetic does, reduces the whole sum.
  lemma SumMod32(a: int, b: int, c: int, d: int)
    ensures (((a % TWO_32 + b) % TWO_32 + c) % TWO_32 + d) % TWO_32 == (a + b + c + d) % TWO_32
  {
    AddMod32(a, b);
    AddMod32(a + b, c);
    AddMod32(a + b + c, d);
  }

  lemma AddMod16(a: int, b: int)
    ensures (a % TWO_16 + b) % TWO_16 == (a + b) % TWO_16
  {
    var q := a / TWO_16;
    var r := (a % TWO_16 + b) / TWO_16;
    assert a + b == (q + r) * TWO_16 + (a % TWO_16 + b) % TWO_16;
  }

  lemma AddMod32(a: int, b: int)
    ensures (a % TWO_32 + b) % TWO_32 == (a + b) % TWO_32
  {
    var q := a / TWO_32;
    var r := (a % TWO_32 + b) / TWO_32;
    assert a + b == (q + r) * TWO_32 + (a % TWO_32 + b) % TWO_32;
  }
}
