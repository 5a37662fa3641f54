/** The examples of section 5.7 of RFC 6455: frames and the octets they are on the wire. */
module FrameExamples {
  import opened Bytes
  import opened Masking
  import opened MaskInPlace
  import opened MaskBuffers
  import opened Endian
  import opened FrameHeader
  import opened Protocol
  import opened Receive

  /** "Hello" */
  const HELLO: seq<u8> := [0x48, 0x65, 0x6C, 0x6C, 0x6F]

  /** The masking key 37 fa 21 3d of the examples, as a number. */
  const KEY: bv32 := 0x3D21_FA37

  function Plain(op: opcode, fin: bool, payload: seq<u8>): Frame {
    Frame(Header(op, fin, false, false, false, false, |payload|, 0), payload)
  }

  function Veiled(op: opcode, fin: bool, payload: seq<u8>): Frame {
    Frame(Header(op, fin, true, false, false, false, |payload|, KEY), payload)
  }

  lemma LowBits(b: u8)
    requires b < 16
    ensures OpcodeIn(0x80 | b) == OpcodeIn(b) == LengthField(b) == LengthField(0x80 | b) == Val(b)
    ensures Bit(0x80 | b, 0x80) && !Bit(b, 0x80)
    ensures !Bit(0x80 | b, 0x40) && !Bit(0x80 | b, 0x20) && !Bit(0x80 | b, 0x10)
    ensures !Bit(b, 0x40) && !Bit(b, 0x20) && !Bit(b, 0x10)
  {
    hide Val;
    assert (0x80 | b) & 0x0F == b && b & 0x0F == b && (0x80 | b) & 0x7F == b && b & 0x7F == b;
  }

  lemma PlainHeader(op: u8, fin: bool, len: u8, h: Header)
    requires op < 16 && len < 16
    requires h == Header(Val(op), fin, false, false, false, false, Val(len), 0)
    ensures Print(h) == [if fin then 0x80 | op else op, len]
  {
    hide Val, OpcodeIn, LengthField, Bit, Print;
    LowBits(op);
    LowBits(len);
    Small(len);
    DescribedIsPrinted([if fin then 0x80 | op else op, len], h);
  }

  lemma VeiledHeader(op: u8, fin: bool, len: u8, h: Header)
    requires op < 16 && len < 16
    requires h == Header(Val(op), fin, true, false, false, false, Val(len), KEY)
    ensures Print(h) == [if fin then 0x80 | op else op, 0x80 | len, 0x37, 0xFA, 0x21, 0x3D]
  {
    hide Val, OpcodeIn, LengthField, Bit, Print, LittleOctets;
    LowBits(op);
    LowBits(len);
    Small(len);
    KeyOctets();
    var s := [if fin then 0x80 | op else op, 0x80 | len, 0x37, 0xFA, 0x21, 0x3D];
    assert s[2..] == [0x37, 0xFA, 0x21, 0x3D];
    DescribedIsPrinted(s, h);
  }

  lemma KeyOctets()
    ensures LittleOctets(KEY) == [0x37, 0xFA, 0x21, 0x3D]
    ensures KeyOctet(KEY, 0) == 0x37 && KeyOctet(KEY, 1) == 0xFA && KeyOctet(KEY, 2) == 0x21 && KeyOctet(KEY, 3) == 0x3D
  {
  }

  /** The lengths 256 and 65536 take the longer forms. */
  lemma LongHeaders(h: Header, g: Header)
    requires h == Header(BINARY, true, false, false, false, false, 256, 0)
    requires g == Header(BINARY, true, false, false, false, false, 65536, 0)
    ensures Print(h) == [0x82, 0x7E, 0x01, 0x00]
    ensures Print(g) == [0x82, 0x7F, 0x00, 0x00, 0x00, 0x00, 0x00, 0x01, 0x00, 0x00]
  {
    hide OpcodeIn, LengthField, Bit, Print, BigEndian, Val;
    LowBits(2);
    LengthForms();
    Digits();
    var two, eight := [0x01, 0x00], [0x00, 0x00, 0x00, 0x00, 0x00, 0x01, 0x00, 0x00];
    BigUint16IsBigEndian(two);
    BigUint64IsBigEndian(eight);
    var s, t := [0x82, 0x7E] + two, [0x82, 0x7F] + eight;
    assert s[2..4] == two && t[2..10] == eight;
    DescribedIsPrinted(s, h);
    DescribedIsPrinted(t, g);
  }

  lemma LengthForms()
    ensures LengthField(0x7E) == 126 && LengthField(0x7F) == 127 && !Bit(0x7E, 0x80) && !Bit(0x7F, 0x80)
  {
  }

  lemma Digits()
    ensures Val(0) == 0 && Val(1) == 1 && Val(2) == 2 && Val(3) == 3 && Val(5) == 5
    ensures Val(8) == 8 && Val(9) == 9 && Val(10) == 10
  {
  }

  /** Masking the payload of the examples. */
  lemma MaskedHello()
    ensures Masked(HELLO, KEY) == [0x7F, 0x9F, 0x4D, 0x51, 0x58]
  {
    hide KeyOctet;
    KeyOctets();
    XorHello();
  }

  lemma XorHello()
    ensures Xor(0x48, 0x37) == 0x7F && Xor(0x65, 0xFA) == 0x9F && Xor(0x6C, 0x21) == 0x4D
    ensures Xor(0x6C, 0x3D) == 0x51 && Xor(0x6F, 0x37) == 0x58
  {
  }

  /** mask_inplace() on a buffer sequence that holds "Hello", however it is cut. */
  method MaskHello(bs: seq<MutableBuffer>)
    requires ValidBuffers(bs) && Concat(Pieces(bs)) == HELLO
    modifies Memories(bs)
    ensures Concat(Pieces(bs)) == [0x7F, 0x9F, 0x4D, 0x51, 0x58]
  {
    hide Masked, Pieces, Concat;
    MaskedHello();
    var key := Mask32(bs, KEY);
  }

  /** A short frame as octets, with its opcode and its length as octets too. */
  lemma PlainWire(op: u8, fin: bool, len: u8, payload: seq<u8>)
    requires op < 16 && len < 16 && Val(len) == |payload|
    ensures Val(op) < 16 && Wire(Plain(Val(op), fin, payload)) == [if fin then 0x80 | op else op, len] + payload
  {
    hide Val, Print;
    Small(op);
    PlainHeader(op, fin, len, Plain(Val(op), fin, payload).h);
  }

  lemma VeiledWire(op: u8, fin: bool, len: u8, payload: seq<u8>)
    requires op < 16 && len < 16 && Val(len) == |payload|
    ensures Val(op) < 16
    ensures Wire(Veiled(Val(op), fin, payload))
      == [if fin then 0x80 | op else op, 0x80 | len, 0x37, 0xFA, 0x21, 0x3D] + Masked(payload, KEY)
  {
    hide Val, Print, Masked;
    Small(op);
    VeiledHeader(op, fin, len, Veiled(Val(op), fin, payload).h);
  }

  /** A text in one frame, from a server and from a client; a text in two; a ping and its pong. */
  lemma SectionFiveSeven()
    ensures Wire(Plain(1, true, HELLO)) == [0x81, 0x05, 0x48, 0x65, 0x6C, 0x6C, 0x6F]
    ensures Wire(Veiled(1, true, HELLO)) == [0x81, 0x85, 0x37, 0xFA, 0x21, 0x3D, 0x7F, 0x9F, 0x4D, 0x51, 0x58]
    ensures Wire(Plain(1, false, [0x48, 0x65, 0x6C])) == [0x01, 0x03, 0x48, 0x65, 0x6C]
    ensures Wire(Plain(0, true, [0x6C, 0x6F])) == [0x80, 0x02, 0x6C, 0x6F]
    ensures Wire(Plain(9, true, HELLO)) == [0x89, 0x05, 0x48, 0x65, 0x6C, 0x6C, 0x6F]
    ensures Wire(Veiled(9, true, HELLO)) == [0x89, 0x85, 0x37, 0xFA, 0x21, 0x3D, 0x7F, 0x9F, 0x4D, 0x51, 0x58]
    ensures Wire(Plain(10, true, HELLO)) == [0x8A, 0x05, 0x48, 0x65, 0x6C, 0x6C, 0x6F]
    ensures Wire(Veiled(10, true, HELLO)) == [0x8A, 0x85, 0x37, 0xFA, 0x21, 0x3D, 0x7F, 0x9F, 0x4D, 0x51, 0x58]
  {
    hide Val, Wire, Masked, Plain, Veiled;
    Digits();
    MaskedHello();
    PlainWire(1, true, 5, HELLO);
    VeiledWire(1, true, 5, HELLO);
    PlainWire(1, false, 3, [0x48, 0x65, 0x6C]);
    PlainWire(0, true, 2, [0x6C, 0x6F]);
    PlainWire(9, true, 5, HELLO);
    VeiledWire(9, true, 5, HELLO);
    PlainWire(10, true, 5, HELLO);
    VeiledWire(10, true, 5, HELLO);
  }

  lemma Small(b: u8)
    requires b < 16
    ensures Val(b) < 16
  {
  }
}
