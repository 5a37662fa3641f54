/** SHA-1 as RFC 3174 defines it: an 80-word schedule, 80 rounds over five registers,
    and padding of the whole message.  Nothing here follows the optimised code. */
module Sha1Spec {
  import opened Bytes

  type word = bv32

  const TWO_32: nat := 0x1_0000_0000

  /** The circular left shift S^n(X) of section 3.c. */
  function S(n: bv6, x: word): word
    requires 0 < n < 32
  {
    (x << n) | (x >> (32 - n))
  }

  /** Bit i of a word, bit 0 being the least significant one. */
  predicate WordBit(x: word, i: bv6)
    requires i < 32
  {
    (x >> i) & 1 == 1
  }

  lemma BitsBy1(x: word, i: bv6)
    requires i < 32
    ensures WordBit(S(1, x), i) <==> WordBit(x, if i >= 1 then i - 1 else i + 31)
  {
  }

  lemma BitsBy5(x: word, i: bv6)
    requires i < 32
    ensures WordBit(S(5, x), i) <==> WordBit(x, if i >= 5 then i - 5 else i + 27)
  {
  }

  lemma BitsBy30(x: word, i: bv6)
    requires i < 32
    ensures WordBit(S(30, x), i) <==> WordBit(x, if i >= 30 then i - 30 else i + 2)
  {
  }

  /** Shifting by one of the amounts that occur moves every bit n places up, and those at the top
      come in at the bottom. */
  lemma ShiftMovesBits(n: bv6, x: word, i: bv6)
    requires n in {1, 5, 30} && i < 32
    ensures WordBit(S(n, x), i) <==> WordBit(x, if i >= n then i - n else i + (32 - n))
  {
    hide S, WordBit;
    if n == 1 {
      BitsBy1(x, i);
    } else if n == 5 {
      BitsBy5(x, i);
    } else {
      BitsBy30(x, i);
    }
  }

  /** X + Y of section 2.d, modulo 2^32. */
  function Plus(x: word, y: word): word {
    x + y
  }

  /** The round functions f(t;B,C,D) of section 5. */
  function F(t: nat, b: word, c: word, d: word): word {
    if t < 20 then (b & c) | (!b & d)
    else if t < 40 then b ^ c ^ d
    else if t < 60 then (b & c) | (b & d) | (c & d)
    else b ^ c ^ d
  }

  /** The round constants K(t) of section 5. */
  function K(t: nat): word {
    if t < 20 then 0x5A827999
    else if t < 40 then 0x6ED9EBA1
    else if t < 60 then 0x8F1BBCDC
    else 0xCA62C1D6
  }

  /** One new schedule word from those 3, 8, 14 and 16 places back. */
  function Extend(w3: word, w8: word, w14: word, w16: word): word {
    S(1, w3 ^ w8 ^ w14 ^ w16)
  }

  /** The message schedule of section 6.1, steps a and b: word t of the 80. */
  function W(m: seq<word>, t: nat): word
    requires |m| == 16
  {
    if t < 16 then m[t]
    else Extend(W(m, t - 3), W(m, t - 8), W(m, t - 14), W(m, t - 16))
  }

  datatype Regs = Regs(a: word, b: word, c: word, d: word, e: word) {
    /** The digest words as a sequence. */
    function Words(): seq<word> { [a, b, c, d, e] }
  }

  /** TEMP = S^5(A) + f(t;B,C,D) + E + W(t) + K(t), given its five terms. */
  function Temp(s: word, f: word, e: word, w: word, k: word): word {
    s + f + e + w + k
  }

  /** One pass of section 6.1, step d. */
  function Round(r: Regs, t: nat, w: word): Regs {
    Regs(Temp(S(5, r.a), F(t, r.b, r.c, r.d), r.e, w, K(t)), r.a, S(30, r.b), r.c, r.d)
  }

  /** The registers after the first t rounds. */
  function Rounds(h: Regs, m: seq<word>, t: nat): Regs
    requires |m| == 16
  {
    if t == 0 then h else Round(Rounds(h, m, t - 1), t - 1, W(m, t - 1))
  }

  /** Section 6.1, steps c to e: the digest after one more block. */
  function Compress(h: Regs, m: seq<word>): Regs
    requires |m| == 16
  {
    var r := Rounds(h, m, 80);
    Regs(Plus(h.a, r.a), Plus(h.b, r.b), Plus(h.c, r.c), Plus(h.d, r.d), Plus(h.e, r.e))
  }

  const H0: Regs := Regs(0x67452301, 0xEFCDAB89, 0x98BADCFE, 0x10325476, 0xC3D2E1F0)

  /** Four octets, most significant first, as a word (section 2.b and 2.c). */
  function Word(p: seq<u8>): word
    requires |p| == 4
  {
    (p[0] as word << 24) | (p[1] as word << 16) | (p[2] as word << 8) | (p[3] as word)
  }

  function Octets(w: word): (p: seq<u8>)
    ensures |p| == 4
  {
    [((w >> 24) & 0xFF) as u8, ((w >> 16) & 0xFF) as u8, ((w >> 8) & 0xFF) as u8, (w & 0xFF) as u8]
  }

  lemma WordOctets(w: word)
    ensures Word(Octets(w)) == w
  {
  }

  /** The sixteen words of a 64-octet block. */
  function BlockWords(p: seq<u8>): (m: seq<word>)
    requires |p| == 64
    ensures |m| == 16
    ensures forall j :: 0 <= j < 16 ==> m[j] == Word(p[4 * j..4 * j + 4])
  {
    seq(16, j requires 0 <= j < 16 => Word(p[4 * j..4 * j + 4]))
  }

  /** The digest registers after all the blocks of s. */
  function Digest(s: seq<u8>): Regs
    requires |s| % 64 == 0
  {
    if |s| == 0 then H0
    else Compress(Digest(s[..|s| - 64]), BlockWords(s[|s| - 64..]))
  }

  function Zeros(k: nat): (z: seq<u8>)
    ensures |z| == k && forall i :: 0 <= i < k ==> z[i] == 0
  {
    seq(k, _ => 0)
  }

  /** A number below 2^32 as a word. */
  function AsWord(n: nat): word
    requires n < TWO_32
  {
    n as word
  }

  lemma WordAsWord(w: word)
    ensures w as nat < TWO_32 && AsWord(w as nat) == w
  {
  }

  function HighWord(l: nat): word
    requires l < TWO_64
  {
    AsWord(l / TWO_32)
  }

  function LowWord(l: nat): word {
    AsWord(l % TWO_32)
  }

  lemma DivMod32(hi: nat, lo: nat)
    requires hi < TWO_32 && lo < TWO_32
    ensures (hi * TWO_32 + lo) / TWO_32 == hi && (hi * TWO_32 + lo) % TWO_32 == lo && hi * TWO_32 + lo < TWO_64
  {
  }

  /** The two words are the number in base 2^32. */
  lemma TwoWords(hi: nat, lo: nat)
    requires hi < TWO_32 && lo < TWO_32
    ensures var l := hi * TWO_32 + lo; l < TWO_64 && HighWord(l) == AsWord(hi) && LowWord(l) == AsWord(lo)
  {
    hide AsWord;
    DivMod32(hi, lo);
  }

  /** The two-word representation of the bit length (section 4.c).  The standard only defines
      it below 2^64 bits; from there on it is reduced modulo 2^64, as the code does. */
  function LengthWords(octets: nat): (l: seq<word>)
    ensures |l| == 2
  {
    var l := octets * 8 % TWO_64;
    [HighWord(l), LowWord(l)]
  }

  lemma PadLength(n: nat)
    ensures (n + 1 + (55 - n) % 64 + 8) % 64 == 0
  {
    var q := (55 - n) / 64;
    assert n + 1 + (55 - n) % 64 + 8 == 64 * (1 - q);
  }

  /** Section 4: the message, one "1" bit, the least number of zero bits that leaves room for
      the length at the end of a block, and the length. */
  function Pad(msg: seq<u8>): (p: seq<u8>)
    ensures |p| % 64 == 0
  {
    var l := LengthWords(|msg|);
    PadLength(|msg|);
    msg + [0x80] + Zeros((55 - |msg|) % 64) + Octets(l[0]) + Octets(l[1])
  }

  /** The octets of the digest registers. */
  function RegsOctets(r: Regs): (p: seq<u8>)
    ensures |p| == 20
  {
    Octets(r.a) + Octets(r.b) + Octets(r.c) + Octets(r.d) + Octets(r.e)
  }

  /** The 20-octet message digest. */
  function Sha1(msg: seq<u8>): (d: seq<u8>)
    ensures |d| == 20
  {
    RegsOctets(Digest(Pad(msg)))
  }
}
