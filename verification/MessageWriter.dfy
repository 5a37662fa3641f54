/** Writing messages: write_frame() of include/beast/websocket/impl/stream.ipp and wr_prepare() of
    include/beast/websocket/detail/stream_base.hpp. */
module MessageWriter {
  import opened Bytes
  import opened Masking
  import opened MaskInPlace
  import opened FrameHeader
  import opened FrameWriter
  import opened Protocol
  import opened StaticStreambuf
  import opened Receive
  import opened ControlFrames
  import opened Fragmenting

  function PieceOf(f: Frame): Piece { Piece(f.h.op, f.h.fin, f.payload) }

  function PiecesOf(fs: seq<Frame>): (ps: seq<Piece>)
    ensures |ps| == |fs|
  {
    seq(|fs|, i requires 0 <= i < |fs| => PieceOf(fs[i]))
  }

  lemma PiecesOfAppend(fs: seq<Frame>, gs: seq<Frame>)
    ensures PiecesOf(fs + gs) == PiecesOf(fs) + PiecesOf(gs)
  {
  }

  /** write<static_streambuf>(fh_buf, fh): the fourteen octets of fh_streambuf are enough. */
  method PrintHeader(fh: Header) returns (b: seq<u8>)
    requires fh.Valid()
    ensures b == Print(fh)
  {
    hide Print;
    var db := new Streambuf(14);
    var ok := WriteHeader(db, fh);
    b := db.mem[db.inp..db.out];
    assert [] + Print(fh) == Print(fh);
  }

  class Sender {
    const role: Role
    var wrAutofrag: bool
    var wrBufSize: nat
    var wrOpcode: opcode
    var cont: bool
    var autofrag: bool
    var size: nat
    var max: nat
    var buf: array?<u8>
    var wire: seq<u8>
    ghost var frames: seq<Frame>

    /** The octets written to the next layer are those of whole frames.  In a message being
        continued with auto fragmentation less than a frame is held back. */
    ghost predicate Valid()
      reads this
    {
      && 0 < wrBufSize < TWO_64 && 0 < max < TWO_64
      && wrOpcode in {TEXT, BINARY}
      && size < max
      && (buf == null ==> size == 0) && (buf != null ==> buf.Length == max)
      && (cont && (autofrag || role == Client) ==> buf != null)
      && (cont && !autofrag ==> size == 0)
      && (forall i :: 0 <= i < |frames| ==> SentBy(frames[i], role))
      && wire == WireAll(frames)
    }

    ghost function Wr(): Pending
      requires Valid()
      reads this, buf
    {
      Pending(cont, autofrag, max, if buf == null then [] else buf[..size])
    }

    ghost function Opt(): Options
      reads this
    {
      Options(wrAutofrag, wrBufSize)
    }

    /** open() as far as writing goes, with the default options: text, cut into frames of 4096 octets. */
    constructor (r: Role)
      ensures Valid() && role == r && !cont && frames == [] && buf == null
      ensures wrAutofrag && wrBufSize == 4096 && wrOpcode == 1
    {
      role := r;
      wrAutofrag := true;
      wrBufSize := 4096;
      wrOpcode := TEXT;
      cont, autofrag, size, max, buf := false, true, 0, 4096, null;
      wire := [];
      frames := [];
    }

    /** wr_prepare(false) */
    method WrPrepare()
      requires Valid() && !cont
      modifies `autofrag, `size, `max, `buf
      ensures Valid() && Wr() == Prepared(old(Wr()), Opt()) && size == 0
      ensures autofrag || role == Client ==> buf != null
      ensures buf == null || buf == old(buf) || fresh(buf)
    {
      hide WireAll, SentBy;
      autofrag := wrAutofrag;
      size := 0;
      if autofrag || role == Client {
        if buf == null || max != wrBufSize {
          max := wrBufSize;
          buf := new u8[max];
        }
      } else {
        max := wrBufSize;
        buf := null;
      }
    }

    /** boost::asio::write(stream_, buffer_cat(fh_buf.data(), mb)): header and payload together
        make a frame. */
    method SendFrame(fh: Header, b: seq<u8>, ghost payload: seq<u8>)
      requires Valid() && fh.Valid() && b == Covered(payload, fh)
      requires SentBy(Frame(fh, payload), role)
      modifies `wire, `frames
      ensures Valid() && frames == old(frames) + [Frame(fh, payload)]
    {
      hide Print, Covered;
      var head := PrintHeader(fh);
      ghost var f := Frame(fh, payload);
      WireAllAppend(frames, f);
      wire := wire + (head + b);
      frames := frames + [f];
    }

    /** mask_inplace(mb, key) on the first n octets of the write buffer. */
    method MaskBuffer(n: nat, wide: bv64, ghost key: bv32) returns (wide': bv64)
      requires buf != null && n <= buf.Length && TwoCopies(wide, key)
      modifies buf
      ensures buf[..n] == Masked(old(buf[..n]), key)
      ensures TwoCopies(wide', Rotated(key, n))
    {
      hide Masked, Rotated, TwoCopies, Spliced;
      ghost var was := buf[..];
      wide' := MaskGeneral64(MutableBuffer(buf, 0, n), wide, key);
      SplicedRegion(was, 0, 0, n, key);
      assert buf[..n] == buf[..][0..n] && was[0..n] == old(buf[..n]);
    }

    /** buffer_copy of n octets of data, from pos on, to the write buffer at off. */
    method Fill(off: nat, data: seq<u8>, pos: nat, n: nat)
      requires buf != null && off + n <= buf.Length && pos + n <= |data|
      modifies buf
      ensures buf[..off + n] == old(buf[..off]) + data[pos..pos + n]
    {
      forall k | 0 <= k < n {
        buf[off + k] := data[pos + k];
      }
    }

    /** What one pass of the auto fragmentation loop sends: the first n octets of the buffer. */
    method SendBuffer(op: opcode, fin: bool, n: nat) returns (ghost f: Frame)
      requires Valid() && buf != null && n <= max
      modifies `wire, `frames, buf
      ensures Valid() && frames == old(frames) + [f] && PieceOf(f) == Piece(op, fin, old(buf[..n]))
    {
      hide Masked, Print, TwoCopies, Doubled, WireAll, Rotated;
      ghost var payload := buf[..n];
      var key: bv32 := 0;
      if role == Client {
        key := MaskKey();
        DoubledIsTwoCopies(key);
        var _ := MaskBuffer(n, Doubled(key), key);
      }
      var fh := OwnHeader(op, fin, n, role, key);
      SendFrame(fh, buf[..n], payload);
      f := Frame(fh, payload);
    }

    /** A pass of the loop that sends: what is held back, then n octets of data from pos on. */
    method FillAndSend(op: opcode, fin: bool, data: seq<u8>, pos: nat, n: nat) returns (ghost f: Frame)
      requires Valid() && buf != null && size + n <= max && pos + n <= |data|
      modifies `wire, `frames, `size, buf
      ensures Valid() && size == 0 && frames == old(frames) + [f]
      ensures PieceOf(f) == Piece(op, fin, old(buf[..size]) + data[pos..pos + n])
    {
      hide WireAll, SentBy;
      Fill(size, data, pos, n);
      f := SendBuffer(op, fin, size + n);
      size := 0;
    }

    /** The auto fragmentation branch of write_frame(); t is all there is to be sent. */
    method WriteAutofrag(fin: bool, data: seq<u8>, ghost t: seq<u8>) returns (ghost sent: seq<Frame>)
      requires Valid() && autofrag && buf != null && t == buf[..size] + data
      modifies `wire, `frames, `size, `cont, buf
      ensures Valid() && frames == old(frames) + sent
      ensures PiecesOf(sent) == Cut(t, if old(cont) then CONT else wrOpcode, fin, max)
      ensures Early(t, fin, max) ==> cont == old(cont) && buf[..size] == Rest(t, fin, max)
      ensures !Early(t, fin, max) ==> cont == !fin && size == 0
    {
      hide Cut, Rest, Early, WireAll, SentBy, PieceOf, PiecesOf, Progress;
      var op: opcode := if cont then CONT else wrOpcode;
      var pos: nat, remain: nat := 0, |data|;
      ghost var held, op0 := buf[..size], op;
      sent := [];
      LoopStart(held, data);
      while true
        invariant Valid() && frames == old(frames) + sent
        invariant pos + remain == |data| && cont == old(cont) && buf[..size] == held
        invariant Progress(PiecesOf(sent), held + data[pos..], op, t, op0, fin, max)
        decreases remain
      {
        var room := max - size;
        if !fin && remain < room {
          LoopHolds(PiecesOf(sent), held, data, pos, op, t, op0, max);
          Fill(size, data, pos, remain);
          size := size + remain;
          return;
        }
        var n := if remain >= room then room else remain;
        LoopSends(PiecesOf(sent), held, data, pos, n, op, t, op0, fin, max);
        ghost var f := FillAndSend(op, fin && n == remain, data, pos, n);
        PiecesOfAppend(sent, [f]);
        PiecesOfOne(f);
        Assoc(old(frames), sent, [f]);
        sent := sent + [f];
        remain := remain - n;
        pos := pos + n;
        held := [];
        op := CONT;
        if remain == 0 {
          cont := !fin;
          break;
        }
      }
    }

    /** A piece of payload copied to the write buffer and masked in place with the running key. */
    method FillAndMask(data: seq<u8>, pos: nat, n: nat, wide: bv64, ghost key: bv32) returns (wide': bv64)
      requires buf != null && n <= buf.Length && pos + n <= |data| && TwoCopies(wide, Rotated(key, pos))
      modifies buf
      ensures Masked(data[..pos], key) + buf[..n] == Masked(data[..pos + n], key)
      ensures TwoCopies(wide', Rotated(key, pos + n))
    {
      hide Masked, Rotated, TwoCopies;
      Fill(0, data, pos, n);
      assert buf[..n] == data[pos..pos + n];
      wide' := MaskBuffer(n, wide, Rotated(key, pos));
      RotatedAppend(key, pos, n);
      MaskedAppend(data[..pos], data[pos..pos + n], key);
      TakeMore(data, pos, n);
    }

    /** The loop of the masking branch: the payload from pos on, a buffer at a time. */
    method SendRest(data: seq<u8>, pos: nat, wide: bv64, ghost key: bv32) returns (ghost more: seq<u8>)
      requires buf != null && 0 < max == buf.Length && pos <= |data| && TwoCopies(wide, Rotated(key, pos))
      modifies `wire, buf
      ensures wire == old(wire) + more && Masked(data[..pos], key) + more == Masked(data, key)
    {
      hide Masked, Rotated, TwoCopies;
      var p, k := pos, wide;
      more := [];
      while p < |data|
        invariant pos <= p <= |data| && TwoCopies(k, Rotated(key, p))
        invariant wire == old(wire) + more && Masked(data[..pos], key) + more == Masked(data[..p], key)
      {
        var n := if |data| - p >= max then max else |data| - p;
        k := FillAndMask(data, p, n, k, key);
        Assoc(Masked(data[..pos], key), more, buf[..n]);
        Assoc(old(wire), more, buf[..n]);
        wire := wire + buf[..n];
        more := more + buf[..n];
        p := p + n;
      }
      assert data[..p] == data;
    }

    /** The masking branch of write_frame(): one frame, its payload masked a buffer at a time. */
    method WriteMasked(fin: bool, data: seq<u8>) returns (ghost sent: seq<Frame>)
      requires Valid() && !autofrag && role == Client && buf != null && size == 0 && |data| < TWO_64
      modifies `wire, `frames, `cont, buf
      ensures Valid() && frames == old(frames) + sent && cont == !fin
      ensures PiecesOf(sent) == [Piece(if old(cont) then CONT else wrOpcode, fin, data)]
    {
      hide Masked, Rotated, TwoCopies, Doubled, WireAll, SentBy, Print;
      var key := MaskKey();
      var fh := OwnHeader(if cont then CONT else wrOpcode, fin, |data|, role, key);
      cont := !fh.fin;
      var head := PrintHeader(fh);
      var wide := Doubled(key);
      DoubledIsTwoCopies(key);
      MaskedNone(key);
      var n := if |data| >= max then max else |data|;
      wide := FillAndMask(data, 0, n, wide, key);
      ghost var first := buf[..n];
      assert data[..0] == [] && [] + first == first;
      wire := wire + (head + buf[..n]);
      ghost var more := SendRest(data, n, wide, key);
      Assoc(old(wire), head + first, more);
      Assoc(head, first, more);
      ghost var f := Frame(fh, data);
      AddFrame(frames, f, role);
      PiecesOfOne(f);
      sent := [f];
      frames := frames + sent;
    }

    /** write_frame() without auto fragmentation and masking: one frame. */
    method WritePlain(fin: bool, data: seq<u8>) returns (ghost sent: seq<Frame>)
      requires Valid() && !autofrag && role == Server && size == 0 && |data| < TWO_64
      modifies `wire, `frames, `cont
      ensures Valid() && frames == old(frames) + sent && cont == !fin
      ensures PiecesOf(sent) == [Piece(if old(cont) then CONT else wrOpcode, fin, data)]
    {
      hide WireAll;
      var fh := OwnHeader(if cont then CONT else wrOpcode, fin, |data|, role, 0);
      cont := !fh.fin;
      SendFrame(fh, data, data);
      sent := [Frame(fh, data)];
      PiecesOfOne(Frame(fh, data));
    }

    /** write_frame(): what is sent and what is kept are as Fragmenting says. */
    method WriteFrame(fin: bool, data: seq<u8>) returns (ghost sent: seq<Frame>)
      requires Valid() && |data| < TWO_64
      modifies `wire, `frames, `cont, `autofrag, `size, `max, `buf, buf
      ensures Valid() && frames == old(frames) + sent
      ensures PiecesOf(sent) == CallPieces(old(Wr()), Opt(), wrOpcode, fin, data)
      ensures Wr() == CallAfter(old(Wr()), Opt(), fin, data)
      ensures buf == null || buf == old(buf) || fresh(buf)
    {
      hide Cut, Rest, Early, WireAll, SentBy, PieceOf, PiecesOf;
      if !cont {
        WrPrepare();
      }
      if autofrag {
        sent := WriteAutofrag(fin, data, Wr().held + data);
      } else if role == Client {
        sent := WriteMasked(fin, data);
      } else {
        sent := WritePlain(fin, data);
      }
    }
  }

  lemma PiecesOfOne(f: Frame)
    ensures PiecesOf([f]) == [PieceOf(f)] && PiecesOf([]) == []
  {
  }

  /** ps has been sent of t0, and t is left, to be sent with opcode op first. */
  ghost predicate Progress(ps: seq<Piece>, t: seq<u8>, op: opcode, t0: seq<u8>, op0: opcode, fin: bool, m: nat)
    requires m > 0
  {
    && ps + Cut(t, op, fin, m) == Cut(t0, op0, fin, m)
    && Rest(t, fin, m) == Rest(t0, fin, m) && Early(t, fin, m) == Early(t0, fin, m)
  }

  lemma LoopStart(held: seq<u8>, data: seq<u8>)
    ensures held + data[0..] == held + data && PiecesOf([]) == []
    ensures forall op, fin, m: nat :: m > 0 ==> Progress([], held + data, op, held + data, op, fin, m)
  {
    assert data[0..] == data;
    forall op, fin, m: nat | m > 0 ensures Progress([], held + data, op, held + data, op, fin, m) {
      assert [] + Cut(held + data, op, fin, m) == Cut(held + data, op, fin, m);
    }
  }

  /** The pass that holds everything back is the last one. */
  lemma LoopHolds(ps: seq<Piece>, held: seq<u8>, data: seq<u8>, pos: nat, op: opcode, t0: seq<u8>, op0: opcode, m: nat)
    requires m > 0 && pos <= |data| && |held| + |data| - pos < m
    requires Progress(ps, held + data[pos..], op, t0, op0, false, m)
    ensures ps == Cut(t0, op0, false, m) && Early(t0, false, m)
    ensures held + data[pos..|data|] == Rest(t0, false, m)
  {
    assert data[pos..] == data[pos..|data|];
    CutPass(held + data[pos..], op, false, m);
    assert ps + [] == ps;
  }

  /** A pass that sends a frame. */
  lemma LoopSends(ps: seq<Piece>, held: seq<u8>, data: seq<u8>, pos: nat, n: nat, op: opcode,
                  t0: seq<u8>, op0: opcode, fin: bool, m: nat)
    requires pos + n <= |data| && |held| < m
    requires n == if |data| - pos >= m - |held| then m - |held| else |data| - pos
    requires fin || |data| - pos >= m - |held|
    requires Progress(ps, held + data[pos..], op, t0, op0, fin, m)
    ensures var ps' := ps + [Piece(op, fin && pos + n == |data|, held + data[pos..pos + n])];
      if pos + n == |data| then ps' == Cut(t0, op0, fin, m) && !Early(t0, fin, m) && Rest(t0, fin, m) == []
      else Progress(ps', [] + data[pos + n..], CONT, t0, op0, fin, m)
  {
    hide Cut, Rest, Early;
    var t, p := held + data[pos..], held + data[pos..pos + n];
    CutPass(t, op, fin, m);
    if pos + n == |data| {
      assert t == p;
    } else {
      assert t[..m] == p && t[m..] == data[pos + n..] == [] + data[pos + n..];
      Assoc(ps, [Piece(op, false, p)], Cut(t[m..], CONT, fin, m));
    }
  }

  /** One pass of the loop: either everything is held back, or the first frame is sent. */
  lemma CutPass(t: seq<u8>, op: opcode, fin: bool, m: nat)
    requires m > 0
    ensures !fin && |t| < m ==> Cut(t, op, fin, m) == [] && Early(t, fin, m) && Rest(t, fin, m) == t
    ensures (fin || |t| == m) && |t| <= m ==>
              Cut(t, op, fin, m) == [Piece(op, fin, t)] && !Early(t, fin, m) && Rest(t, fin, m) == []
    ensures |t| > m ==>
      && Cut(t, op, fin, m) == [Piece(op, false, t[..m])] + Cut(t[m..], CONT, fin, m)
      && Rest(t, fin, m) == Rest(t[m..], fin, m) && Early(t, fin, m) == Early(t[m..], fin, m)
  {
  }

  lemma MaskedNone(key: bv32)
    ensures Masked([], key) == [] && Rotated(key, 0) == key
  {
  }

  /** A frame more. */
  lemma AddFrame(fs: seq<Frame>, f: Frame, role: Role)
    requires (forall i :: 0 <= i < |fs| ==> SentBy(fs[i], role))
    requires SentBy(f, role)
    ensures forall i :: 0 <= i < |fs| ==> fs[i].h.Valid()
    ensures forall i :: 0 <= i < |fs + [f]| ==> SentBy((fs + [f])[i], role) && (fs + [f])[i].h.Valid()
    ensures WireAll(fs + [f]) == WireAll(fs) + (Print(f.h) + Covered(f.payload, f.h))
  {
    WireAllAppend(fs, f);
  }
}
