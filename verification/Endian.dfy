/** Byte orders of include/beast/websocket/detail/endian.hpp. */
module Endian {
  import opened Bytes
  import opened Masking

  /** The number an octet stands for. */
  function Val(b: u8): (n: nat)
    ensures n < 256
  {
    b as nat
  }

  lemma ValNext(b: u8)
    requires Val(b) < 255
    ensures Val(b + 1) == Val(b) + 1
  {
    assert b < 255;
  }

  /** The octet that stands for n. */
  function OctetOf(n: nat): (b: u8)
    requires n < 256
    ensures Val(b) == n
  {
    hide Val;
    if n == 0 then ValZero(); 0 else ValNext(OctetOf(n - 1)); OctetOf(n - 1) + 1
  }

  lemma ValZero()
    ensures Val(0) == 0
  {
  }

  /** static_cast<std::uint8_t>(n) */
  function Low(n: nat): u8 {
    OctetOf(n % 256)
  }

  lemma ValLow(n: nat)
    ensures Val(Low(n)) == n % 256
  {
  }

  lemma LowVal(b: u8)
    ensures Low(Val(b)) == b
  {
    hide Low, Val;
    ValLow(Val(b));
    ValInjective(Low(Val(b)), b);
  }

  lemma ValInjective(a: u8, b: u8)
    requires Val(a) == Val(b)
    ensures a == b
  {
  }

  /** Network byte order: the number written by the octets, most significant first. */
  function BigEndian(s: seq<u8>): nat {
    if s == [] then 0 else BigEndian(s[..|s| - 1]) * 256 + Val(s[|s| - 1])
  }

  /** n in k octets, most significant first. */
  function ToBig(n: nat, k: nat): (s: seq<u8>)
    ensures |s| == k
  {
    if k == 0 then [] else ToBig(n / 256, k - 1) + [Low(n)]
  }

  /** 256 to the power k */
  function Radix(k: nat): (r: nat)
    ensures r > 0
  {
    if k == 0 then 1 else 256 * Radix(k - 1)
  }

  lemma {:induction false} BigToBig(n: nat, k: nat)
    requires n < Radix(k)
    ensures BigEndian(ToBig(n, k)) == n
    decreases k
  {
    hide Low, Val;
    if k > 0 {
      BigToBig(n / 256, k - 1);
      ValLow(n);
      assert ToBig(n, k)[..k - 1] == ToBig(n / 256, k - 1);
    }
  }

  lemma {:induction false} ToBigBig(s: seq<u8>)
    ensures BigEndian(s) < Radix(|s|)
    ensures ToBig(BigEndian(s), |s|) == s
    decreases |s|
  {
    hide Low, Val;
    if s != [] {
      var k := |s| - 1;
      ToBigBig(s[..k]);
      var hi, lo := BigEndian(s[..k]), Val(s[k]);
      DivMod256(hi, lo);
      LowVal(s[k]);
      LowMod(hi * 256 + lo);
    }
  }

  lemma DivMod256(hi: nat, lo: nat)
    requires lo < 256
    ensures (hi * 256 + lo) / 256 == hi && (hi * 256 + lo) % 256 == lo
  {
  }

  lemma LowMod(n: nat)
    ensures Low(n) == Low(n % 256)
  {
    hide OctetOf;
    assert n % 256 % 256 == n % 256;
  }

  /** big_uint16_to_native() */
  function BigUint16(p: seq<u8>): nat
    requires |p| == 2
  {
    Val(p[0]) * 0x100 + Val(p[1])
  }

  /** big_uint64_to_native() */
  function BigUint64(p: seq<u8>): nat
    requires |p| == 8
  {
    Val(p[0]) * 0x100_0000_0000_0000 + Val(p[1]) * 0x1_0000_0000_0000 + Val(p[2]) * 0x100_0000_0000 +
    Val(p[3]) * 0x1_0000_0000 + Val(p[4]) * 0x100_0000 + Val(p[5]) * 0x1_0000 + Val(p[6]) * 0x100 + Val(p[7])
  }

  lemma BigUint16IsBigEndian(p: seq<u8>)
    requires |p| == 2
    ensures BigUint16(p) == BigEndian(p) < 0x1_0000
  {
    hide Val;
    assert p[..1][..0] == [];
    assert BigEndian(p[..1]) == Val(p[0]);
  }

  lemma BigStep(p: seq<u8>, k: nat)
    requires k < |p|
    ensures BigEndian(p[..k + 1]) == BigEndian(p[..k]) * 256 + Val(p[k])
  {
    hide Val;
    assert p[..k + 1][..k] == p[..k];
  }

  lemma BigFour(p: seq<u8>, k: nat)
    requires k + 4 <= |p|
    ensures BigEndian(p[..k + 4]) == BigEndian(p[..k]) * 0x1_0000_0000 +
      Val(p[k]) * 0x100_0000 + Val(p[k + 1]) * 0x1_0000 + Val(p[k + 2]) * 0x100 + Val(p[k + 3])
  {
    hide Val, BigEndian;
    BigStep(p, k);
    BigStep(p, k + 1);
    BigStep(p, k + 2);
    BigStep(p, k + 3);
  }

  lemma BigNone()
    ensures BigEndian([]) == 0
  {
  }

  lemma FrontFour(p: seq<u8>)
    requires |p| >= 4
    ensures BigEndian(p[..4]) == Val(p[0]) * 0x100_0000 + Val(p[1]) * 0x1_0000 + Val(p[2]) * 0x100 + Val(p[3])
  {
    hide Val, BigEndian;
    BigFour(p, 0);
    assert p[..0] == [];
    BigNone();
  }

  /** Four octets as a number, and eight octets as two of them. */
  function Four(v0: nat, v1: nat, v2: nat, v3: nat): nat {
    v0 * 0x100_0000 + v1 * 0x1_0000 + v2 * 0x100 + v3
  }

  lemma EightOctets(v0: nat, v1: nat, v2: nat, v3: nat, v4: nat, v5: nat, v6: nat, v7: nat)
    requires v0 < 256 && v1 < 256 && v2 < 256 && v3 < 256 && v4 < 256 && v5 < 256 && v6 < 256 && v7 < 256
    ensures Four(v0, v1, v2, v3) * 0x1_0000_0000 + Four(v4, v5, v6, v7) ==
            v0 * 0x100_0000_0000_0000 + v1 * 0x1_0000_0000_0000 + v2 * 0x100_0000_0000 + v3 * 0x1_0000_0000 +
            v4 * 0x100_0000 + v5 * 0x1_0000 + v6 * 0x100 + v7 < TWO_64
  {
  }

  lemma TwoFours(p: seq<u8>)
    requires |p| == 8
    ensures BigEndian(p) == Four(Val(p[0]), Val(p[1]), Val(p[2]), Val(p[3])) * 0x1_0000_0000 +
                            Four(Val(p[4]), Val(p[5]), Val(p[6]), Val(p[7]))
  {
    hide Val, BigEndian;
    FrontFour(p);
    BigFour(p, 4);
    assert p[..8] == p;
  }

  lemma BigUint64IsBigEndian(p: seq<u8>)
    requires |p| == 8
    ensures BigUint64(p) == BigEndian(p) < TWO_64
  {
    hide Val, BigEndian, Four;
    TwoFours(p);
    EightOctets(Val(p[0]), Val(p[1]), Val(p[2]), Val(p[3]), Val(p[4]), Val(p[5]), Val(p[6]), Val(p[7]));
  }

  /** little_uint32_to_native() */
  function LittleUint32(p: seq<u8>): bv32
    requires |p| == 4
  {
    p[0] as bv32 + (p[1] as bv32 << 8) + (p[2] as bv32 << 16) + (p[3] as bv32 << 24)
  }

  /** native_to_little_uint32() */
  function LittleOctets(v: bv32): (p: seq<u8>)
    ensures |p| == 4
  {
    [(v & 0xFF) as u8, ((v >> 8) & 0xFF) as u8, ((v >> 16) & 0xFF) as u8, ((v >> 24) & 0xFF) as u8]
  }

  lemma LittleRoundTrip(v: bv32)
    ensures LittleUint32(LittleOctets(v)) == v
  {
  }

  lemma LittleOctetsOf(p: seq<u8>)
    requires |p| == 4
    ensures LittleOctets(LittleUint32(p)) == p
  {
    var q := LittleOctets(LittleUint32(p));
    assert q[0] == p[0];
    assert q[1] == p[1];
    assert q[2] == p[2];
    assert q[3] == p[3];
  }

  /** The key octets go on the wire in the order in which masking uses them. */
  lemma KeyOnTheWire(v: bv32, j: nat)
    requires j < 4
    ensures LittleOctets(v)[j] == KeyOctet(v, j)
  {
  }
}
