/** WebSocket frame headers: section 5.2 of RFC 6455 as the meaning of their octets, and the
    printer of include/beast/websocket/detail/frame.hpp. */
module FrameHeader {
  import opened Bytes
  import opened Endian

  type opcode = n: nat | n < 16

  const CONT: opcode := 0
  const TEXT: opcode := 1
  const BINARY: opcode := 2
  const CLOSE: opcode := 8
  const PING: opcode := 9
  const PONG: opcode := 10

  /** is_reserved() and is_control() */
  predicate IsReserved(op: opcode) { 3 <= op <= 7 || 11 <= op <= 15 }

  predicate IsControl(op: opcode) { op >= CLOSE }

  datatype Header = Header(op: opcode, fin: bool, mask: bool, rsv1: bool, rsv2: bool, rsv3: bool,
                           len: nat, key: bv32) {
    /** The field types of the source; an unmasked header keeps its key at 0, so that equal
        headers have equal fields. */
    ghost predicate Valid() { len < TWO_64 && (mask || key == 0) }
  }

  // ---- Section 5.2: what the octets of a header say ----

  function Bit(b: u8, m: u8): bool { b & m != 0 }

  function OpcodeIn(b: u8): nat { Val(b & 0x0F) }

  function LengthField(b: u8): nat { Val(b & 0x7F) }

  /** The number of octets of the extended payload length. */
  function Extra(field: nat): nat {
    if field == 126 then 2 else if field == 127 then 8 else 0
  }

  /** s is the header h: flags, opcode, the length in the fewest octets, and the masking key. */
  ghost predicate Describes(s: seq<u8>, h: Header) {
    |s| >= 2 &&
    var ext := Extra(LengthField(s[1]));
    && h.fin == Bit(s[0], 0x80) && h.rsv1 == Bit(s[0], 0x40) && h.rsv2 == Bit(s[0], 0x20)
    && h.rsv3 == Bit(s[0], 0x10) && h.op == OpcodeIn(s[0]) && h.mask == Bit(s[1], 0x80)
    && |s| == 2 + ext + (if h.mask then 4 else 0)
    && h.len == (if ext == 0 then LengthField(s[1]) else BigEndian(s[2..2 + ext]))
    && (ext == 2 ==> 126 <= h.len) && (ext == 8 ==> 65536 <= h.len)
    && (if h.mask then s[2 + ext..] == LittleOctets(h.key) else h.key == 0)
  }

  // ---- The printer ----

  function If(c: bool, m: u8): u8 { if c then m else 0 }

  /** b[0] of write() */
  function FirstOctet(h: Header): u8 {
    If(h.fin, 0x80) | OctetOf(h.op) | If(h.rsv1, 0x40) | If(h.rsv2, 0x20) | If(h.rsv3, 0x10)
  }

  /** b[1] of write(), n being the length field. */
  function SecondOctet(mask: bool, n: nat): u8
    requires n < 128
  {
    If(mask, 0x80) | OctetOf(n)
  }

  /** The second octet and the extended length. */
  function LengthOctets(h: Header): (s: seq<u8>)
    requires h.Valid()
    ensures 1 <= |s| <= 9
  {
    if h.len <= 125 then [SecondOctet(h.mask, h.len)]
    else if h.len <= 65535 then [SecondOctet(h.mask, 126)] + ToBig(h.len, 2)
    else [SecondOctet(h.mask, 127)] + ToBig(h.len, 8)
  }

  /** The octets write() puts in the buffer. */
  function Print(h: Header): (s: seq<u8>)
    requires h.Valid()
    ensures 2 <= |s| <= 14
  {
    [FirstOctet(h)] + LengthOctets(h) + (if h.mask then LittleOctets(h.key) else [])
  }

  lemma SmallOctet(n: nat)
    requires n < 128
    ensures OctetOf(n) <= 0x7F && (n < 16 ==> OctetOf(n) <= 0x0F)
  {
    hide OctetOf;
    var b := OctetOf(n);
    assert Val(b) == n;
  }

  lemma FirstOctetBits(b: u8, fin: bool, r1: bool, r2: bool, r3: bool)
    requires b <= 0x0F
    ensures var o := If(fin, 0x80) | b | If(r1, 0x40) | If(r2, 0x20) | If(r3, 0x10);
      Bit(o, 0x80) == fin && Bit(o, 0x40) == r1 && Bit(o, 0x20) == r2 && Bit(o, 0x10) == r3 && o & 0x0F == b
  {
  }

  lemma FirstOctetParts(h: Header)
    ensures var o := FirstOctet(h);
      && Bit(o, 0x80) == h.fin && Bit(o, 0x40) == h.rsv1 && Bit(o, 0x20) == h.rsv2
      && Bit(o, 0x10) == h.rsv3 && OpcodeIn(o) == h.op
  {
    hide OctetOf, Bit, If, Val;
    SmallOctet(h.op);
    FirstOctetBits(OctetOf(h.op), h.fin, h.rsv1, h.rsv2, h.rsv3);
  }

  lemma SecondOctetBits(b: u8, mask: bool)
    requires b <= 0x7F
    ensures Bit(If(mask, 0x80) | b, 0x80) == mask && (If(mask, 0x80) | b) & 0x7F == b
  {
  }

  lemma SecondOctetParts(mask: bool, n: nat)
    requires n < 128
    ensures Bit(SecondOctet(mask, n), 0x80) == mask && LengthField(SecondOctet(mask, n)) == n
  {
    hide OctetOf, Bit, If, Val;
    SmallOctet(n);
    SecondOctetBits(OctetOf(n), mask);
  }

  /** The printed length is the length, in the fewest octets. */
  lemma LengthDescribes(h: Header)
    requires h.Valid()
    ensures var l := LengthOctets(h);
      var ext := Extra(LengthField(l[0]));
      && Bit(l[0], 0x80) == h.mask && |l| == 1 + ext
      && h.len == (if ext == 0 then LengthField(l[0]) else BigEndian(l[1..]))
      && (ext == 2 ==> 126 <= h.len) && (ext == 8 ==> 65536 <= h.len)
  {
    hide SecondOctet, Bit, LengthField, ToBig, BigEndian;
    RadixValues();
    if h.len <= 125 {
      SecondOctetParts(h.mask, h.len);
    } else if h.len <= 65535 {
      SecondOctetParts(h.mask, 126);
      BigToBig(h.len, 2);
      assert LengthOctets(h)[1..] == ToBig(h.len, 2);
    } else {
      SecondOctetParts(h.mask, 127);
      BigToBig(h.len, 8);
      assert LengthOctets(h)[1..] == ToBig(h.len, 8);
    }
  }

  lemma PrintParts(h: Header)
    requires h.Valid()
    ensures var s, l := Print(h), LengthOctets(h);
      && s[0] == FirstOctet(h) && s[1] == l[0] && s[2..1 + |l|] == l[1..]
      && |s| == 1 + |l| + (if h.mask then 4 else 0) && (h.mask ==> s[1 + |l|..] == LittleOctets(h.key))
  {
    hide FirstOctet, LengthOctets, LittleOctets;
  }

  /** What is printed describes the header it was printed from. */
  lemma PrintDescribes(h: Header)
    requires h.Valid()
    ensures Describes(Print(h), h)
  {
    hide FirstOctet, LengthOctets, Print, Bit, OpcodeIn, LengthField, LittleOctets, BigEndian;
    FirstOctetParts(h);
    LengthDescribes(h);
    PrintParts(h);
  }

  lemma RadixValues()
    ensures Radix(2) == 0x1_0000 && Radix(8) == TWO_64
  {
    assert Radix(4) == 256 * Radix(3);
  }

  lemma FirstOctetWhole(b: u8)
    ensures If(Bit(b, 0x80), 0x80) | (b & 0x0F) | If(Bit(b, 0x40), 0x40) | If(Bit(b, 0x20), 0x20)
            | If(Bit(b, 0x10), 0x10) == b
  {
  }

  lemma SecondOctetWhole(b: u8)
    ensures If(Bit(b, 0x80), 0x80) | (b & 0x7F) == b
  {
  }

  lemma OctetOfVal(b: u8)
    ensures OctetOf(Val(b)) == b
  {
    hide OctetOf;
    ValInjective(OctetOf(Val(b)), b);
  }

  lemma FieldRanges(b: u8)
    ensures OpcodeIn(b) < 16 && LengthField(b) < 128
  {
  }

  lemma FirstOctetFrom(b: u8, h: Header)
    requires h.fin == Bit(b, 0x80) && h.rsv1 == Bit(b, 0x40) && h.rsv2 == Bit(b, 0x20) && h.rsv3 == Bit(b, 0x10)
    requires h.op == OpcodeIn(b)
    ensures b == FirstOctet(h)
  {
    hide Val, OctetOf, Bit, If;
    FirstOctetWhole(b);
    OctetOfVal(b & 0x0F);
  }

  lemma SecondOctetFrom(b: u8)
    ensures LengthField(b) < 128 && b == SecondOctet(Bit(b, 0x80), LengthField(b))
  {
    hide Val, OctetOf, Bit, If;
    FieldRanges(b);
    SecondOctetWhole(b);
    OctetOfVal(b & 0x7F);
  }

  lemma HeaderOctets(s: seq<u8>, h: Header)
    requires Describes(s, h)
    ensures LengthField(s[1]) < 128
    ensures s[0] == FirstOctet(h) && s[1] == SecondOctet(h.mask, LengthField(s[1]))
  {
    hide FirstOctet, SecondOctet, OpcodeIn, LengthField, Bit, LittleOctets, BigEndian;
    FirstOctetFrom(s[0], h);
    SecondOctetFrom(s[1]);
  }

  lemma LengthFrom(s: seq<u8>, h: Header)
    requires Describes(s, h)
    ensures h.Valid() && LengthOctets(h) == [s[1]] + s[2..2 + Extra(LengthField(s[1]))]
  {
    hide FirstOctet, SecondOctet, Bit, OpcodeIn, LittleOctets, ToBig, BigEndian, LengthField;
    HeaderOctets(s, h);
    var ext := Extra(LengthField(s[1]));
    RadixValues();
    ToBigBig(s[2..2 + ext]);
    if ext == 0 {
      assert s[2..2] == [] && [s[1]] + [] == [s[1]];
    }
  }

  lemma FourParts(s: seq<u8>, ext: nat)
    requires 2 + ext <= |s|
    ensures s == [s[0]] + ([s[1]] + s[2..2 + ext]) + s[2 + ext..]
  {
    TakeMore(s, 2, ext);
    Assoc([s[0]], [s[1]], s[2..2 + ext]);
    Rejoin(s, 2 + ext);
    assert s[..2] == [s[0]] + [s[1]];
  }

  /** A header has one encoding only: octets that describe h are the octets printed for h. */
  lemma DescribedIsPrinted(s: seq<u8>, h: Header)
    requires Describes(s, h)
    ensures h.Valid() && s == Print(h)
  {
    hide FirstOctet, LengthOctets, Bit, OpcodeIn, LittleOctets, BigEndian, LengthField;
    HeaderOctets(s, h);
    LengthFrom(s, h);
    FourParts(s, Extra(LengthField(s[1])));
  }

  /** The octets determine the header. */
  lemma DescribesOne(s: seq<u8>, h: Header, g: Header)
    requires Describes(s, h) && Describes(s, g)
    ensures h == g
  {
    hide Bit, OpcodeIn, LengthField, BigEndian, LittleOctets;
    if h.mask {
      LittleRoundTrip(h.key);
      LittleRoundTrip(g.key);
    }
  }

  /** No header is a proper prefix of another. */
  lemma DescribesPrefix(d: seq<u8>, k: nat, l: nat, h: Header, g: Header)
    requires k <= |d| && l <= |d| && Describes(d[..k], h) && Describes(d[..l], g)
    ensures k == l && h == g
  {
    hide Bit, OpcodeIn, LengthField, BigEndian, LittleOctets;
    assert d[..k][0] == d[..l][0] && d[..k][1] == d[..l][1];
    DescribesOne(d[..k], h, g);
  }
}
