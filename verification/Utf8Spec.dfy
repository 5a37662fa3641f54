/** UTF-8 as RFC 3629 defines it, once by the grammar of its section 4 and once by the encoding
    table of its section 3. */
module Utf8Spec {
  import opened Bytes

  // ---- Section 4: the grammar ----

  predicate Tail(b: u8) { 0x80 <= b <= 0xBF }

  predicate Utf8_1(c: seq<u8>) { |c| == 1 && c[0] <= 0x7F }

  predicate Utf8_2(c: seq<u8>) { |c| == 2 && 0xC2 <= c[0] <= 0xDF && Tail(c[1]) }

  predicate Utf8_3(c: seq<u8>) {
    |c| == 3 && Tail(c[2]) &&
    (|| (c[0] == 0xE0 && 0xA0 <= c[1] <= 0xBF)
     || (0xE1 <= c[0] <= 0xEC && Tail(c[1]))
     || (c[0] == 0xED && 0x80 <= c[1] <= 0x9F)
     || (0xEE <= c[0] <= 0xEF && Tail(c[1])))
  }

  predicate Utf8_4(c: seq<u8>) {
    |c| == 4 && Tail(c[2]) && Tail(c[3]) &&
    (|| (c[0] == 0xF0 && 0x90 <= c[1] <= 0xBF)
     || (0xF1 <= c[0] <= 0xF3 && Tail(c[1]))
     || (c[0] == 0xF4 && 0x80 <= c[1] <= 0x8F))
  }

  /** UTF8-char */
  predicate Utf8Char(c: seq<u8>) {
    Utf8_1(c) || Utf8_2(c) || Utf8_3(c) || Utf8_4(c)
  }

  /** UTF8-octets = *( UTF8-char ) */
  predicate Utf8Octets(s: seq<u8>)
    decreases |s|
  {
    s == [] || exists k :: 1 <= k <= |s| && Utf8Char(s[..k]) && Utf8Octets(s[k..])
  }

  // ---- Section 3: scalar values and their octets ----

  predicate Scalar(v: bv32) { v <= 0x10FFFF && !(0xD800 <= v <= 0xDFFF) }

  /** Six bits of v from bit n up, and the octet 10xxxxxx that carries them. */
  function Field(v: bv32, n: bv6): bv32
    requires n <= 12
  {
    (v >> n) & 0x3F
  }

  function Continue(v: bv32, n: bv6): u8
    requires n <= 12
  {
    0x80 | ((v >> n) & 0x3F) as u8
  }

  function Payload(b: u8): bv32 { (b & 0x3F) as bv32 }

  /** The leading octets of the three multi-octet forms, and the bits they carry. */
  function Top2(v: bv32): u8 requires v <= 0x7FF { 0xC0 | (v >> 6) as u8 }

  function Top3(v: bv32): u8 requires v <= 0xFFFF { 0xE0 | (v >> 12) as u8 }

  function Top4(v: bv32): u8 requires v <= 0x10FFFF { 0xF0 | (v >> 18) as u8 }

  function Low2(b: u8): bv32 { (b & 0x1F) as bv32 }

  function Low3(b: u8): bv32 { (b & 0x0F) as bv32 }

  function Low4(b: u8): bv32 { (b & 0x07) as bv32 }

  function Join2(l: bv32, p: bv32): bv32 { (l << 6) | p }

  function Join3(l: bv32, p: bv32, q: bv32): bv32 { (l << 12) | (p << 6) | q }

  function Join4(l: bv32, p: bv32, q: bv32, r: bv32): bv32 { (l << 18) | (p << 12) | (q << 6) | r }

  /** The octet sequences of the table in section 3. */
  function Encode(v: bv32): (c: seq<u8>)
    requires Scalar(v)
  {
    if v <= 0x7F then [v as u8]
    else if v <= 0x7FF then [Top2(v), Continue(v, 0)]
    else if v <= 0xFFFF then [Top3(v), Continue(v, 6), Continue(v, 0)]
    else [Top4(v), Continue(v, 12), Continue(v, 6), Continue(v, 0)]
  }

  /** The bits marked x in the table of section 3, put together. */
  function Decode(c: seq<u8>): bv32
    requires 1 <= |c| <= 4
  {
    if |c| == 1 then c[0] as bv32
    else if |c| == 2 then Join2(Low2(c[0]), Payload(c[1]))
    else if |c| == 3 then Join3(Low3(c[0]), Payload(c[1]), Payload(c[2]))
    else Join4(Low4(c[0]), Payload(c[1]), Payload(c[2]), Payload(c[3]))
  }

  function EncodeAll(vs: seq<bv32>): seq<u8>
    requires forall i :: 0 <= i < |vs| ==> Scalar(vs[i])
  {
    if vs == [] then [] else Encode(vs[0]) + EncodeAll(vs[1..])
  }

  /** The examples of section 7: "A", NOT IDENTICAL TO, ALPHA and "."; three Hangul syllables; and a
      character beyond the basic plane. */
  lemma SectionSeven()
    ensures Encode(0x41) == [0x41] && Encode(0x2262) == [0xE2, 0x89, 0xA2] && Encode(0x391) == [0xCE, 0x91]
    ensures Encode(0xD55C) == [0xED, 0x95, 0x9C] && Encode(0xAD6D) == [0xEA, 0xB5, 0xAD]
    ensures Encode(0xC5B4) == [0xEC, 0x96, 0xB4] && Encode(0x233B4) == [0xF0, 0xA3, 0x8E, 0xB4]
  {
  }

  lemma ContinuePayload(v: bv32, n: bv6)
    requires n <= 12
    ensures Tail(Continue(v, n)) && Payload(Continue(v, n)) == Field(v, n)
  {
  }

  lemma PayloadContinue(b: u8, v: bv32, n: bv6)
    requires n <= 12 && Tail(b) && Field(v, n) == Payload(b)
    ensures Continue(v, n) == b
  {
  }

  lemma PayloadRange(b: u8)
    requires Tail(b)
    ensures Payload(b) <= 0x3F && (0x20 <= Payload(b) <==> 0xA0 <= b) && (0x10 <= Payload(b) <==> 0x90 <= b)
  {
  }

  lemma Split2(v: bv32)
    requires 0x80 <= v <= 0x7FF
    ensures 0xC2 <= Top2(v) <= 0xDF && Join2(Low2(Top2(v)), Field(v, 0)) == v
  {
  }

  lemma Split3(v: bv32)
    requires 0x800 <= v <= 0xFFFF && Scalar(v)
    ensures var a, b := Top3(v), Continue(v, 6);
      (a == 0xE0 && 0xA0 <= b) || 0xE1 <= a <= 0xEC || (a == 0xED && b <= 0x9F) || 0xEE <= a <= 0xEF
    ensures Join3(Low3(Top3(v)), Field(v, 6), Field(v, 0)) == v
  {
  }

  lemma Split4(v: bv32)
    requires 0x10000 <= v <= 0x10FFFF
    ensures var a, b := Top4(v), Continue(v, 12);
      (a == 0xF0 && 0x90 <= b) || 0xF1 <= a <= 0xF3 || (a == 0xF4 && b <= 0x8F)
    ensures Join4(Low4(Top4(v)), Field(v, 12), Field(v, 6), Field(v, 0)) == v
  {
  }

  lemma Joined2(a: u8, p: bv32)
    requires 0xC2 <= a <= 0xDF && p <= 0x3F
    ensures var v := Join2(Low2(a), p); 0x80 <= v <= 0x7FF && Top2(v) == a && Field(v, 0) == p
  {
  }

  lemma Joined3(a: u8, p: bv32, q: bv32)
    requires 0xE0 <= a <= 0xEF && p <= 0x3F && q <= 0x3F
    ensures var v := Join3(Low3(a), p, q);
      && v <= 0xFFFF && (0x800 <= v <==> a != 0xE0 || 0x20 <= p)
      && (0xD800 <= v <= 0xDFFF <==> a == 0xED && 0x20 <= p)
      && Top3(v) == a && Field(v, 6) == p && Field(v, 0) == q
  {
  }

  lemma Joined4(a: u8, p: bv32, q: bv32, r: bv32)
    requires 0xF0 <= a <= 0xF4 && p <= 0x3F && q <= 0x3F && r <= 0x3F
    requires (a == 0xF0 ==> 0x10 <= p) && (a == 0xF4 ==> p < 0x10)
    ensures var v := Join4(Low4(a), p, q, r);
      && 0x10000 <= v <= 0x10FFFF
      && Top4(v) == a && Field(v, 12) == p && Field(v, 6) == q && Field(v, 0) == r
  {
  }

  /** Every scalar value is encoded as one character of the grammar and decodes to itself. */
  lemma EncodeIsChar(v: bv32)
    requires Scalar(v)
    ensures Utf8Char(Encode(v)) && Decode(Encode(v)) == v
  {
    hide Continue, Payload, Field, Join2, Join3, Join4, Top2, Top3, Top4, Low2, Low3, Low4;
    ContinuePayload(v, 0);
    if v <= 0x7F {
    } else if v <= 0x7FF {
      Split2(v);
    } else if v <= 0xFFFF {
      Split3(v);
      ContinuePayload(v, 6);
    } else {
      Split4(v);
      ContinuePayload(v, 6);
      ContinuePayload(v, 12);
    }
  }

  lemma Decode2(c: seq<u8>)
    requires Utf8_2(c)
    ensures 0x80 <= Decode(c) <= 0x7FF && [Top2(Decode(c)), Continue(Decode(c), 0)] == c
  {
    hide Payload, Continue, Field, Join2, Top2, Low2;
    PayloadRange(c[1]);
    Joined2(c[0], Payload(c[1]));
    PayloadContinue(c[1], Decode(c), 0);
  }

  lemma Decode3(c: seq<u8>)
    requires Utf8_3(c)
    ensures 0x800 <= Decode(c) <= 0xFFFF && Scalar(Decode(c))
    ensures [Top3(Decode(c)), Continue(Decode(c), 6), Continue(Decode(c), 0)] == c
  {
    hide Payload, Continue, Field, Join3, Top3, Low3;
    PayloadRange(c[1]);
    PayloadRange(c[2]);
    Joined3(c[0], Payload(c[1]), Payload(c[2]));
    PayloadContinue(c[1], Decode(c), 6);
    PayloadContinue(c[2], Decode(c), 0);
  }

  lemma Decode4(c: seq<u8>)
    requires Utf8_4(c)
    ensures 0x10000 <= Decode(c) <= 0x10FFFF
    ensures [Top4(Decode(c)), Continue(Decode(c), 12), Continue(Decode(c), 6), Continue(Decode(c), 0)] == c
  {
    hide Payload, Continue, Field, Join4, Top4, Low4;
    PayloadRange(c[1]);
    PayloadRange(c[2]);
    PayloadRange(c[3]);
    Joined4(c[0], Payload(c[1]), Payload(c[2]), Payload(c[3]));
    PayloadContinue(c[1], Decode(c), 12);
    PayloadContinue(c[2], Decode(c), 6);
    PayloadContinue(c[3], Decode(c), 0);
  }

  /** Every character of the grammar is the encoding of the scalar value it decodes to. */
  lemma CharIsEncoding(c: seq<u8>)
    requires Utf8Char(c)
    ensures Scalar(Decode(c)) && Encode(Decode(c)) == c
  {
    if |c| == 1 {
      assert Encode(Decode(c)) == [c[0]];
    } else if |c| == 2 {
      Decode2(c);
    } else if |c| == 3 {
      Decode3(c);
    } else {
      Decode4(c);
    }
  }

  /** The grammar and the encoder define the same texts. */
  lemma {:induction false} EncodeAllIsOctets(vs: seq<bv32>)
    requires forall i :: 0 <= i < |vs| ==> Scalar(vs[i])
    ensures Utf8Octets(EncodeAll(vs))
  {
    hide Encode, Utf8Char;
    if vs != [] {
      var c, rest := Encode(vs[0]), EncodeAll(vs[1..]);
      EncodeIsChar(vs[0]);
      EncodeAllIsOctets(vs[1..]);
      CharNonEmpty(c);
      assert (c + rest)[..|c|] == c && (c + rest)[|c|..] == rest;
    }
  }

  lemma {:induction false} OctetsAreEncodings(s: seq<u8>) returns (vs: seq<bv32>)
    requires Utf8Octets(s)
    ensures forall i :: 0 <= i < |vs| ==> Scalar(vs[i])
    ensures EncodeAll(vs) == s
    decreases |s|
  {
    hide Encode, Decode, Scalar, Utf8Char;
    if s == [] {
      vs := [];
    } else {
      var k :| 1 <= k <= |s| && Utf8Char(s[..k]) && Utf8Octets(s[k..]);
      var rest := OctetsAreEncodings(s[k..]);
      CharNonEmpty(s[..k]);
      CharIsEncoding(s[..k]);
      vs := [Decode(s[..k])] + rest;
      assert vs[1..] == rest;
    }
  }

  lemma CharNonEmpty(c: seq<u8>)
    requires Utf8Char(c)
    ensures 1 <= |c| <= 4
  {
  }

  /** The first octet fixes the length of a character, so no character is a prefix of another. */
  function CharLen(b: u8): (n: nat)
    ensures 1 <= n <= 4
  {
    if b <= 0x7F then 1 else if b <= 0xDF then 2 else if b <= 0xEF then 3 else 4
  }

  lemma CharHasLen(c: seq<u8>)
    requires Utf8Char(c)
    ensures |c| == CharLen(c[0])
  {
  }

  /** Whether a text is well formed is decided by its first character and the rest. */
  lemma FirstChar(c: seq<u8>, rest: seq<u8>)
    requires Utf8Char(c)
    ensures Utf8Octets(c + rest) <==> Utf8Octets(rest)
  {
    hide Utf8Char, CharLen;
    var s := c + rest;
    CharNonEmpty(c);
    CharHasLen(c);
    assert s[..|c|] == c && s[|c|..] == rest;
    if Utf8Octets(s) {
      var k :| 1 <= k <= |s| && Utf8Char(s[..k]) && Utf8Octets(s[k..]);
      CharHasLen(s[..k]);
      assert s[..k][0] == c[0];
    }
  }
}
