/** The examples of section 5.7 of RFC 6455 as write_frame() makes them. */
module WriteExamples {
  import opened Bytes
  import opened FrameHeader
  import opened Protocol
  import opened Receive
  import opened Fragmenting
  import opened MessageWriter
  import opened Delivery
  import opened FrameExamples

  lemma HelloPieces(w: Pending, opt: Options)
    requires !w.cont && w.max > 0 && opt.auto && opt.max >= 3
    ensures opt.max >= 5 ==> MessagePieces(w, opt, 1, [HELLO]) == [Piece(1, true, HELLO)]
    ensures opt.max == 3 ==>
      MessagePieces(w, opt, 1, [HELLO]) == [Piece(1, false, [0x48, 0x65, 0x6C]), Piece(0, true, [0x6C, 0x6F])]
  {
    var t := [] + HELLO;
    assert t == HELLO && [HELLO][1..] == [];
    assert t[..3] == [0x48, 0x65, 0x6C] && t[3..] == [0x6C, 0x6F];
    assert MessagePieces(w, opt, 1, [HELLO]) == Cut(t, 1, true, opt.max) + [];
  }

  lemma PlainPiece(f: Frame, op: opcode, fin: bool, payload: seq<u8>)
    requires SentBy(f, Server) && PieceOf(f) == Piece(op, fin, payload)
    ensures f == Plain(op, fin, payload) && f.h.Valid()
  {
  }

  /** A new server writes the text "Hello", with a write buffer of this size. */
  method WriteHello(size: nat) returns (wire: seq<u8>)
    requires 0 < size < TWO_64
    ensures size >= 5 ==> wire == [0x81, 0x05, 0x48, 0x65, 0x6C, 0x6C, 0x6F]
    ensures size == 3 ==> wire == [0x01, 0x03, 0x48, 0x65, 0x6C, 0x80, 0x02, 0x6C, 0x6F]
  {
    hide Wire, WireAll, SentBy, MessagePieces, Plain;
    var s := new Sender(Server);
    s.wrBufSize := size;
    ghost var w := s.Wr();
    ghost var sent := WriteBuffers(s, [HELLO]);
    assert [] + sent == sent;
    if size >= 3 {
      HelloPieces(w, s.Opt());
    }
    SectionFiveSeven();
    wire := s.wire;
    if size >= 5 {
      assert PieceOf(sent[0]) == PiecesOf(sent)[0];
      PlainPiece(sent[0], 1, true, HELLO);
      OneOnTheWire(sent[0]);
      assert sent == [sent[0]];
    } else if size == 3 {
      assert PieceOf(sent[0]) == PiecesOf(sent)[0] && PieceOf(sent[1]) == PiecesOf(sent)[1];
      PlainPiece(sent[0], 1, false, [0x48, 0x65, 0x6C]);
      PlainPiece(sent[1], 0, true, [0x6C, 0x6F]);
      TwoOnTheWire(sent[0], sent[1]);
      assert sent == [sent[0], sent[1]];
    }
  }

  lemma OneOnTheWire(f: Frame)
    requires f.h.Valid()
    ensures WireAll([f]) == Wire(f)
  {
    hide Wire;
    assert [f][1..] == [] && Wire(f) + [] == Wire(f);
  }

  lemma TwoOnTheWire(f: Frame, g: Frame)
    requires f.h.Valid() && g.h.Valid()
    ensures WireAll([f, g]) == Wire(f) + Wire(g)
  {
    hide Wire;
    OneOnTheWire(g);
    assert [f, g][1..] == [g];
  }
}
