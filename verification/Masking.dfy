/** Masking of frame payloads: section 5.3 of RFC 6455 as the specification, and the incremental
    32-bit and 64-bit forms of include/beast/websocket/detail/mask.hpp. */
module Masking {
  import opened Bytes

  // ---- Section 5.3 of RFC 6455 ----

  /** Octet j of the masking key, in the order the octets have on the wire. */
  function KeyOctet(key: bv32, j: nat): u8
    requires j < 4
  {
    if j == 0 then (key & 0xFF) as u8
    else if j == 1 then ((key >> 8) & 0xFF) as u8
    else if j == 2 then ((key >> 16) & 0xFF) as u8
    else ((key >> 24) & 0xFF) as u8
  }

  /** The key octet that masks payload octet i. */
  function KeyAt(key: bv32, i: nat): u8 {
    KeyOctet(key, i % 4)
  }

  function Xor(a: u8, b: u8): u8 { a ^ b }

  lemma XorIs(a: u8, b: u8)
    ensures a ^ b == Xor(a, b)
  {
  }

  /** Bit by bit: exactly one of the two. */
  lemma XorBits(a: u8, b: u8, bit: u8)
    requires bit in {0x01, 0x02, 0x04, 0x08, 0x10, 0x20, 0x40, 0x80}
    ensures Xor(a, b) & bit != 0 <==> ((a & bit != 0) != (b & bit != 0))
  {
  }

  /** transformed-octet-i = original-octet-i XOR masking-key-octet-(i MOD 4) */
  function Masked(s: seq<u8>, key: bv32): (t: seq<u8>)
    ensures |t| == |s|
  {
    seq(|s|, i requires 0 <= i < |s| => Xor(s[i], KeyAt(key, i)))
  }

  lemma MaskedOctet(s: seq<u8>, key: bv32, i: nat)
    requires i < |s|
    ensures Masked(s, key)[i] == Xor(s[i], KeyAt(key, i))
  {
  }

  /** What section 5.3 says of every bit of the payload: it is turned over exactly where the
      masking key has a 1. */
  lemma MaskedBits(s: seq<u8>, key: bv32, i: nat, bit: u8)
    requires i < |s| && bit in {0x01, 0x02, 0x04, 0x08, 0x10, 0x20, 0x40, 0x80}
    ensures Masked(s, key)[i] & bit != 0 <==> ((s[i] & bit != 0) != (KeyOctet(key, i % 4) & bit != 0))
  {
    hide KeyOctet, Xor;
    XorBits(s[i], KeyAt(key, i), bit);
  }

  lemma MaskTwice(s: seq<u8>, key: bv32)
    ensures Masked(Masked(s, key), key) == s
  {
    hide KeyAt, Xor;
    forall i | 0 <= i < |s| ensures Masked(Masked(s, key), key)[i] == s[i] {
      XorTwice(s[i], KeyAt(key, i));
    }
  }

  lemma XorTwice(a: u8, k: u8)
    ensures Xor(Xor(a, k), k) == a
  {
  }

  // ---- Key rotation ----

  /** ror() on 32 and 64 bits.  A shift by 0 would shift the other way by the full width, which
      C++ leaves undefined: hence the precondition. */
  function Ror32(t: bv32, n: u8): bv32
    requires 0 < n < 32
  {
    (t << (32 - n)) | (t >> n)
  }

  function Ror64(t: bv64, n: u8): bv64
    requires 0 < n < 64
  {
    (t << (64 - n)) | (t >> n)
  }

  /** m*8 for the std::uint8_t m. */
  function Bits(m: nat): (b: u8)
    requires m < 8
    ensures b == if m == 0 then 0 else if m == 1 then 8 else if m == 2 then 16 else if m == 3 then 24
                 else if m == 4 then 32 else if m == 5 then 40 else if m == 6 then 48 else 56
  {
    if m == 0 then 0 else 8 + Bits(m - 1)
  }

  /** The 32-bit key after m more octets. */
  function Rotated(key: bv32, m: nat): bv32 {
    if m % 4 == 0 then key else Ror32(key, Bits(m % 4))
  }

  lemma Ror32By8(key: bv32)
    ensures var r := Ror32(key, 8);
      && KeyOctet(r, 0) == KeyOctet(key, 1) && KeyOctet(r, 1) == KeyOctet(key, 2)
      && KeyOctet(r, 2) == KeyOctet(key, 3) && KeyOctet(r, 3) == KeyOctet(key, 0)
  {
  }

  lemma Ror32By16(key: bv32)
    ensures var r := Ror32(key, 16);
      && KeyOctet(r, 0) == KeyOctet(key, 2) && KeyOctet(r, 1) == KeyOctet(key, 3)
      && KeyOctet(r, 2) == KeyOctet(key, 0) && KeyOctet(r, 3) == KeyOctet(key, 1)
  {
  }

  lemma Ror32By24(key: bv32)
    ensures var r := Ror32(key, 24);
      && KeyOctet(r, 0) == KeyOctet(key, 3) && KeyOctet(r, 1) == KeyOctet(key, 0)
      && KeyOctet(r, 2) == KeyOctet(key, 1) && KeyOctet(r, 3) == KeyOctet(key, 2)
  {
  }

  /** Rotating by m octets brings octet m of the key to the front. */
  lemma RotatedOctet(key: bv32, m: nat, j: nat)
    requires m < 4 && j < 4
    ensures KeyOctet(Rotated(key, m), j) == KeyOctet(key, (j + m) % 4)
  {
    hide KeyOctet, Ror32;
    if m == 1 {
      Ror32By8(key);
    } else if m == 2 {
      Ror32By16(key);
    } else if m == 3 {
      Ror32By24(key);
    }
  }

  /** prepare_key() for the 64-bit form. */
  function Doubled(key: bv32): bv64 {
    (key as bv64 << 32) | (key as bv64)
  }

  function Octet64(key: bv64, j: nat): u8
    requires j < 8
  {
    if j == 0 then (key & 0xFF) as u8
    else if j == 1 then ((key >> 8) & 0xFF) as u8
    else if j == 2 then ((key >> 16) & 0xFF) as u8
    else if j == 3 then ((key >> 24) & 0xFF) as u8
    else if j == 4 then ((key >> 32) & 0xFF) as u8
    else if j == 5 then ((key >> 40) & 0xFF) as u8
    else if j == 6 then ((key >> 48) & 0xFF) as u8
    else ((key >> 56) & 0xFF) as u8
  }

  function Octets64(t: bv64): (o: seq<u8>)
    ensures |o| == 8
  {
    [Octet64(t, 0), Octet64(t, 1), Octet64(t, 2), Octet64(t, 3),
     Octet64(t, 4), Octet64(t, 5), Octet64(t, 6), Octet64(t, 7)]
  }

  lemma Octets64At(t: bv64, j: nat)
    requires j < 8
    ensures Octets64(t)[j] == Octet64(t, j)
  {
    hide Octet64;
  }

  lemma Ror64By8(t: bv64)
    ensures var r := Ror64(t, 8);
      && Octet64(r, 0) == Octet64(t, 1) && Octet64(r, 1) == Octet64(t, 2)
      && Octet64(r, 2) == Octet64(t, 3) && Octet64(r, 3) == Octet64(t, 4)
      && Octet64(r, 4) == Octet64(t, 5) && Octet64(r, 5) == Octet64(t, 6)
      && Octet64(r, 6) == Octet64(t, 7) && Octet64(r, 7) == Octet64(t, 0)
  {
  }

  lemma Ror64By16(t: bv64)
    ensures var r := Ror64(t, 16);
      && Octet64(r, 0) == Octet64(t, 2) && Octet64(r, 1) == Octet64(t, 3)
      && Octet64(r, 2) == Octet64(t, 4) && Octet64(r, 3) == Octet64(t, 5)
      && Octet64(r, 4) == Octet64(t, 6) && Octet64(r, 5) == Octet64(t, 7)
      && Octet64(r, 6) == Octet64(t, 0) && Octet64(r, 7) == Octet64(t, 1)
  {
  }

  lemma Ror64By24(t: bv64)
    ensures var r := Ror64(t, 24);
      && Octet64(r, 0) == Octet64(t, 3) && Octet64(r, 1) == Octet64(t, 4)
      && Octet64(r, 2) == Octet64(t, 5) && Octet64(r, 3) == Octet64(t, 6)
      && Octet64(r, 4) == Octet64(t, 7) && Octet64(r, 5) == Octet64(t, 0)
      && Octet64(r, 6) == Octet64(t, 1) && Octet64(r, 7) == Octet64(t, 2)
  {
  }

  lemma Ror64By32(t: bv64)
    ensures var r := Ror64(t, 32);
      && Octet64(r, 0) == Octet64(t, 4) && Octet64(r, 1) == Octet64(t, 5)
      && Octet64(r, 2) == Octet64(t, 6) && Octet64(r, 3) == Octet64(t, 7)
      && Octet64(r, 4) == Octet64(t, 0) && Octet64(r, 5) == Octet64(t, 1)
      && Octet64(r, 6) == Octet64(t, 2) && Octet64(r, 7) == Octet64(t, 3)
  {
  }

  lemma Ror64By40(t: bv64)
    ensures var r := Ror64(t, 40);
      && Octet64(r, 0) == Octet64(t, 5) && Octet64(r, 1) == Octet64(t, 6)
      && Octet64(r, 2) == Octet64(t, 7) && Octet64(r, 3) == Octet64(t, 0)
      && Octet64(r, 4) == Octet64(t, 1) && Octet64(r, 5) == Octet64(t, 2)
      && Octet64(r, 6) == Octet64(t, 3) && Octet64(r, 7) == Octet64(t, 4)
  {
  }

  lemma Ror64By48(t: bv64)
    ensures var r := Ror64(t, 48);
      && Octet64(r, 0) == Octet64(t, 6) && Octet64(r, 1) == Octet64(t, 7)
      && Octet64(r, 2) == Octet64(t, 0) && Octet64(r, 3) == Octet64(t, 1)
      && Octet64(r, 4) == Octet64(t, 2) && Octet64(r, 5) == Octet64(t, 3)
      && Octet64(r, 6) == Octet64(t, 4) && Octet64(r, 7) == Octet64(t, 5)
  {
  }

  lemma Ror64By56(t: bv64)
    ensures var r := Ror64(t, 56);
      && Octet64(r, 0) == Octet64(t, 7) && Octet64(r, 1) == Octet64(t, 0)
      && Octet64(r, 2) == Octet64(t, 1) && Octet64(r, 3) == Octet64(t, 2)
      && Octet64(r, 4) == Octet64(t, 3) && Octet64(r, 5) == Octet64(t, 4)
      && Octet64(r, 6) == Octet64(t, 5) && Octet64(r, 7) == Octet64(t, 6)
  {
  }

  lemma Rotation1(t: bv64)
    ensures Octets64(Ror64(t, 8)) == Octets64(t)[1..] + Octets64(t)[..1]
  {
    hide Octet64, Ror64;
    Ror64By8(t);
  }

  lemma Rotation2(t: bv64)
    ensures Octets64(Ror64(t, 16)) == Octets64(t)[2..] + Octets64(t)[..2]
  {
    hide Octet64, Ror64;
    Ror64By16(t);
  }

  lemma Rotation3(t: bv64)
    ensures Octets64(Ror64(t, 24)) == Octets64(t)[3..] + Octets64(t)[..3]
  {
    hide Octet64, Ror64;
    Ror64By24(t);
  }

  lemma Rotation4(t: bv64)
    ensures Octets64(Ror64(t, 32)) == Octets64(t)[4..] + Octets64(t)[..4]
  {
    hide Octet64, Ror64;
    Ror64By32(t);
  }

  lemma Rotation5(t: bv64)
    ensures Octets64(Ror64(t, 40)) == Octets64(t)[5..] + Octets64(t)[..5]
  {
    hide Octet64, Ror64;
    Ror64By40(t);
  }

  lemma Rotation6(t: bv64)
    ensures Octets64(Ror64(t, 48)) == Octets64(t)[6..] + Octets64(t)[..6]
  {
    hide Octet64, Ror64;
    Ror64By48(t);
  }

  lemma Rotation7(t: bv64)
    ensures Octets64(Ror64(t, 56)) == Octets64(t)[7..] + Octets64(t)[..7]
  {
    hide Octet64, Ror64;
    Ror64By56(t);
  }

  /** Rotating by 8 * m bits rotates the octets by m places. */
  lemma Ror64Octets(t: bv64, m: nat)
    requires 0 < m < 8
    ensures Octets64(Ror64(t, Bits(m))) == Octets64(t)[m..] + Octets64(t)[..m]
  {
    hide Octets64, Ror64;
    if m == 1 { Rotation1(t); }
    else if m == 2 { Rotation2(t); }
    else if m == 3 { Rotation3(t); }
    else if m == 4 { Rotation4(t); }
    else if m == 5 { Rotation5(t); }
    else if m == 6 { Rotation6(t); }
    else { Rotation7(t); }
  }

  lemma ModAdd4(a: nat, b: nat)
    ensures (a % 4 + b % 4) % 4 == (a + b) % 4
  {
    assert a + b == a % 4 + b % 4 + 4 * (a / 4 + b / 4);
  }

  lemma ModAdd8(a: nat, b: nat)
    ensures (a % 8 + b % 8) % 8 == (a + b) % 8
  {
    assert a + b == a % 8 + b % 8 + 8 * (a / 8 + b / 8);
  }

  /** A key rotated by m octets masks octet i the way the key masks octet m + i. */
  lemma RotatedAt(key: bv32, m: nat, i: nat)
    ensures KeyAt(Rotated(key, m), i) == KeyAt(key, m + i)
  {
    hide KeyOctet, Rotated;
    RotatedMod(0, key, m);
    RotatedOctet(key, m % 4, i % 4);
    ModAdd4(i, m);
  }

  /** The 64-bit key after m more octets. */
  function Rotated64(key: bv64, m: nat): bv64 {
    if m % 8 == 0 then key else Ror64(key, Bits(m % 8))
  }

  lemma Rotated64Octet(key: bv64, m: nat, j: nat)
    requires m < 8 && j < 8
    ensures Octet64(Rotated64(key, m), j) == Octet64(key, if j + m < 8 then j + m else j + m - 8)
  {
    hide Octet64, Ror64, Octets64;
    if m > 0 {
      Ror64Octets(key, m);
      Octets64At(Ror64(key, Bits(m)), j);
      Octets64At(key, if j + m < 8 then j + m else j + m - 8);
    }
  }

  function At64(key: bv64, i: nat): u8 {
    Octet64(key, i % 8)
  }

  lemma Rotated64At(key: bv64, m: nat, i: nat)
    ensures At64(Rotated64(key, m), i) == At64(key, m + i)
  {
    hide Octet64, Rotated64;
    RotatedMod(key, 0, m);
    Rotated64Octet(key, m % 8, i % 8);
    ModAdd8(i, m);
    var n := i % 8 + m % 8;
    assert n % 8 == if n < 8 then n else n - 8;
  }

  lemma RotatedMod(wide: bv64, key: bv32, m: nat)
    ensures Rotated(key, m) == Rotated(key, m % 4) && Rotated64(wide, m) == Rotated64(wide, m % 8)
  {
    hide Ror32, Ror64, Bits;
  }

  /** The invariant of the 64-bit form: its key is two copies of the 32-bit one. */
  ghost predicate TwoCopies(wide: bv64, key: bv32) {
    forall i: nat :: At64(wide, i) == KeyAt(key, i)
  }

  lemma DoubledOctets(key: bv32)
    ensures var d := Doubled(key);
      && Octet64(d, 0) == KeyOctet(key, 0) && Octet64(d, 1) == KeyOctet(key, 1)
      && Octet64(d, 2) == KeyOctet(key, 2) && Octet64(d, 3) == KeyOctet(key, 3)
      && Octet64(d, 4) == KeyOctet(key, 0) && Octet64(d, 5) == KeyOctet(key, 1)
      && Octet64(d, 6) == KeyOctet(key, 2) && Octet64(d, 7) == KeyOctet(key, 3)
  {
  }

  lemma DoubledIsTwoCopies(key: bv32)
    ensures TwoCopies(Doubled(key), key)
  {
    hide Doubled, KeyOctet, Octet64;
    DoubledOctets(key);
    forall i: nat ensures At64(Doubled(key), i) == KeyAt(key, i) {
      Mod8Mod4(i);
    }
  }

  lemma Mod8Mod4(i: nat)
    ensures i % 4 == if i % 8 < 4 then i % 8 else i % 8 - 4
  {
    var q, r := i / 8, i % 8;
    assert i == 8 * q + r;
    if r < 4 {
      Mod4Is(i, 2 * q, r);
    } else {
      Mod4Is(i, 2 * q + 1, r - 4);
    }
  }

  lemma Mod4Is(i: nat, k: nat, r: nat)
    requires i == 4 * k + r && r < 4
    ensures i % 4 == r
  {
  }

  /** Both keys rotated by the same number of octets stay in step. */
  lemma RotationKeepsCopies(wide: bv64, key: bv32, m: nat)
    requires TwoCopies(wide, key)
    ensures TwoCopies(Rotated64(wide, m), Rotated(key, m))
  {
    hide KeyAt, At64, Rotated, Rotated64;
    forall i: nat ensures At64(Rotated64(wide, m), i) == KeyAt(Rotated(key, m), i) {
      Rotated64At(wide, m, i);
      RotatedAt(key, m, i);
      assert At64(wide, m + i) == KeyAt(key, m + i);
    }
  }

  /** Masking a payload in two pieces, the second with the rotated key, masks the whole. */
  lemma MaskedAppend(s: seq<u8>, t: seq<u8>, key: bv32)
    ensures Masked(s + t, key) == Masked(s, key) + Masked(t, Rotated(key, |s|))
  {
    hide KeyAt, Rotated, Xor, Masked;
    var whole, parts := Masked(s + t, key), Masked(s, key) + Masked(t, Rotated(key, |s|));
    forall i | 0 <= i < |s| + |t| ensures whole[i] == parts[i] {
      MaskedOctet(s + t, key, i);
      if i < |s| {
        MaskedOctet(s, key, i);
      } else {
        RotatedAt(key, |s|, i - |s|);
        MaskedOctet(t, Rotated(key, |s|), i - |s|);
      }
    }
  }

  lemma RotatedAppend(key: bv32, m: nat, n: nat)
    ensures Rotated(Rotated(key, m), n) == Rotated(key, m + n)
  {
    hide KeyAt, Rotated;
    var l, r := Rotated(Rotated(key, m), n), Rotated(key, m + n);
    forall j: nat ensures KeyAt(l, j) == KeyAt(r, j) {
      RotatedAt(Rotated(key, m), n, j);
      RotatedAt(key, m, n + j);
      RotatedAt(key, m + n, j);
    }
    OctetsDetermine(l, r);
  }

  lemma OctetsDetermine(x: bv32, y: bv32)
    requires forall j: nat :: KeyAt(x, j) == KeyAt(y, j)
    ensures x == y
  {
    assert KeyAt(x, 0) == KeyAt(y, 0);
    assert KeyAt(x, 1) == KeyAt(y, 1);
    assert KeyAt(x, 2) == KeyAt(y, 2);
    assert KeyAt(x, 3) == KeyAt(y, 3);
  }
}
