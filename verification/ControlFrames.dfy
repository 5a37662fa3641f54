/** Control frames: write_close() and write_ping() of include/beast/websocket/detail/stream_base.hpp
    and the payload readers of include/beast/websocket/detail/frame.hpp. */
module ControlFrames {
  import opened Bytes
  import opened Masking
  import opened MaskInPlace
  import opened Endian
  import opened FrameHeader
  import opened FrameWriter
  import opened Protocol
  import opened StaticStreambuf
  import opened StreamBase
  import opened Receive
  import opened Utf8Spec
  import opened Utf8Checker

  /** mask_inplace(d, key) on the prepared octets of db, if the header is masked. */
  method MaskPrepared(db: Streambuf, n: nat, h: Header, wide: bv64, ghost got: nat) returns (wide': bv64)
    requires db.Valid() && db.out + n == db.last && KeyReady(wide, h, got)
    modifies db.mem
    ensures db.mem[db.inp..db.out] == old(db.mem[db.inp..db.out])
    ensures db.mem[db.out..db.last] == CoveredFrom(old(db.mem[db.out..db.last]), h, got)
    ensures KeyReady(wide', h, got + n)
  {
    hide Masked, Rotated, TwoCopies;
    wide' := wide;
    if h.mask {
      ghost var was, key := db.mem[..], Rotated(h.key, got);
      wide' := MaskGeneral64(MutableBuffer(db.mem, db.out, n), wide, key);
      SplicedRegion(was, db.inp, db.out, db.last, key);
      RotatedAppend(h.key, got, n);
    }
  }

  /** prepare(|s|), copy s there, mask it in place with the running key, commit(|s|). */
  method PutCovered(db: Streambuf, s: seq<u8>, h: Header, wide: bv64, ghost got: nat)
    returns (ok: bool, wide': bv64)
    requires db.Valid() && KeyReady(wide, h, got)
    modifies db`last, db`out, db.mem
    ensures db.Valid() && (ok <==> |s| <= old(db.Room()))
    ensures ok ==> db.Data() == old(db.Data()) + CoveredFrom(s, h, got)
    ensures ok ==> db.Room() == old(db.Room()) - |s| && KeyReady(wide', h, got + |s|)
  {
    hide CoveredFrom, KeyReady;
    var d := db.Prepare(|s|);
    if d == None {
      return false, wide;
    }
    db.Fill(s);
    wide' := MaskPrepared(db, |s|, h, wide, got);
    db.Commit(|s|);
    ok := true;
  }

  lemma SplicedRegion(was: seq<u8>, i: nat, o: nat, e: nat, key: bv32)
    requires i <= o <= e <= |was|
    ensures Spliced(was, o, e, key)[i..o] == was[i..o]
    ensures Spliced(was, o, e, key)[o..e] == Masked(was[o..e], key)
  {
    hide Masked;
    var a, m, c := was[..o], Masked(was[o..e], key), was[e..];
    assert (a + m + c)[i..o] == a[i..o] == was[i..o];
  }

  /** The mask key of the next frame; maskgen_ gives any key but 0. */
  method MaskKey() returns (key: bv32)
    ensures key != 0
  {
    key := *;
    if key == 0 {
      key := 1;
    }
  }

  /** A control frame as an endpoint of this role makes it. */
  ghost predicate ControlBy(f: Frame, op: opcode, payload: seq<u8>, role: Role) {
    && IsControl(op) && !IsReserved(op) && |payload| <= 125
    && SentBy(f, role) && f.h.op == op && f.h.fin && f.payload == payload
  }

  // ---- Close frames ----

  /** close_reason: code 0 is close_code::none, and the reason is at most 123 octets long. */
  datatype CloseReason = CloseReason(code: nat, reason: seq<u8>) {
    ghost predicate Valid() { code < 0x1_0000 && |reason| <= 123 }
  }

  function ClosePayload(cr: CloseReason): (p: seq<u8>)
    ensures |p| == if cr.code == NONE then 0 else 2 + |cr.reason|
  {
    if cr.code == NONE then [] else ToBig(cr.code, 2) + cr.reason
  }

  function CloseFrame(cr: CloseReason, role: Role, key: bv32): Frame {
    Frame(OwnHeader(CLOSE, true, |ClosePayload(cr)|, role, key), ClosePayload(cr))
  }

  /** The payload part of write_close(): code and reason are masked in two steps with one
      running key. */
  method WriteClosePayload(db: Streambuf, fh: Header, cr: CloseReason) returns (ok: bool)
    requires db.Valid() && cr.Valid() && cr.code != NONE
    modifies db`last, db`out, db.mem
    ensures db.Valid() && (ok <==> 2 + |cr.reason| <= old(db.Room()))
    ensures ok ==> db.Data() == old(db.Data()) + Covered(ClosePayload(cr), fh)
  {
    hide KeyReady, Covered, CoveredFrom, ToBig, Doubled;
    var wide := Doubled(fh.key);
    DoubledReady(fh);
    var code := ToBig(cr.code, 2);
    CoveredParts(code, cr.reason, fh);
    ok, wide := PutCovered(db, code, fh, wide, 0);
    if ok && cr.reason != [] {
      ok, wide := PutCovered(db, cr.reason, fh, wide, 2);
    }
  }

  /** write_close(): one close frame.  It fails where prepare() throws, that is exactly when the
      frame does not fit. */
  method WriteClose(db: Streambuf, role: Role, cr: CloseReason, key: bv32) returns (ok: bool)
    requires db.Valid() && cr.Valid()
    modifies db`last, db`out, db.mem
    ensures db.Valid() && CloseFrame(cr, role, key).Valid()
    ensures ok <==> |Wire(CloseFrame(cr, role, key))| <= old(db.Room())
    ensures ok ==> db.Data() == old(db.Data()) + Wire(CloseFrame(cr, role, key))
  {
    hide Print, Covered, ClosePayload, Wire, Streambuf.Data;
    var fh := OwnHeader(CLOSE, true, if cr.code == NONE then 0 else 2 + |cr.reason|, role, key);
    assert ClosePayload(cr) == [] <==> cr.code == NONE;
    FrameParts(db.Data(), CloseFrame(cr, role, key));
    ok := WriteHeader(db, fh);
    if ok && cr.code != NONE {
      ok := WriteClosePayload(db, fh, cr);
    }
  }

  lemma FrameParts(d: seq<u8>, f: Frame)
    requires f.h.Valid()
    ensures (d + Print(f.h)) + Covered(f.payload, f.h) == d + Wire(f) && |Wire(f)| == |Print(f.h)| + |f.payload|
    ensures f.payload == [] ==> Wire(f) == Print(f.h)
  {
    hide Print, Covered;
    CoveredNone(f.h);
  }

  lemma DoubledReady(h: Header)
    ensures KeyReady(Doubled(h.key), h, 0)
  {
    DoubledIsTwoCopies(h.key);
    RotatedNone(h.key);
  }

  lemma CoveredParts(s: seq<u8>, t: seq<u8>, h: Header)
    requires |s| == 2
    ensures CoveredFrom(s, h, 0) + CoveredFrom(t, h, 2) == Covered(s + t, h)
    ensures t == [] ==> CoveredFrom(s, h, 0) == Covered(s + t, h)
  {
    hide Masked, Rotated;
    RotatedNone(h.key);
    MaskedAppend(s, t, h.key);
    if t == [] {
      assert s + t == s;
    }
  }

  /** is_valid(close_code::value) */
  predicate IsValidCode(v: nat) {
    if v == 1000 || v == 1001 || v == 1002 || v == 1003 || v == 1007 || v == 1008 || v == 1009
       || v == 1010 || v == 1011 || v == 1012 || v == 1013
    then true
    else if v == 1004 || v == 1005 || v == 1006 || v == 1014 || v == 1015 then false
    else if 1016 <= v <= 2999 then false
    else if v <= 999 then false
    else true
  }

  /** The codes section 7.4 of RFC 6455 lets an endpoint send: the defined ones, including the two
      registered later, and the ranges 3000-3999 and 4000-4999. */
  predicate SendableCode(v: nat) {
    1000 <= v <= 1003 || 1007 <= v <= 1013 || 3000 <= v <= 4999
  }

  /** is_valid() knows no upper end to the private range. */
  lemma ValidCodes(v: nat)
    ensures IsValidCode(v) <==> SendableCode(v) || 5000 <= v
  {
  }

  /** A reason that may be sent, and is told apart on the wire: a valid code with UTF-8 text, or
      neither code nor text. */
  ghost predicate Legal(cr: CloseReason) {
    cr.Valid() && if cr.code == NONE then cr.reason == [] else IsValidCode(cr.code) && Utf8Octets(cr.reason)
  }

  /** read() of a close payload: the reason, or the code to fail with. */
  method ReadClose(bs: seq<u8>) returns (cr: CloseReason, code: nat)
    requires |bs| <= 125
    ensures code == NONE || code == PROTOCOL_ERROR
    ensures code == NONE ==> Legal(cr) && ClosePayload(cr) == bs
    ensures code != NONE ==> forall c: CloseReason :: Legal(c) ==> ClosePayload(c) != bs
  {
    hide ToBig, Utf8Octets;
    var n := |bs|;
    cr := CloseReason(NONE, []);
    if n == 0 {
      return cr, NONE;
    }
    if n == 1 {
      return cr, PROTOCOL_ERROR;
    }
    BigUint16IsBigEndian(bs[..2]);
    ClosePayloadParts(bs);
    cr := cr.(code := BigUint16(bs[..2]));
    n := n - 2;
    if !IsValidCode(cr.code) {
      return cr, PROTOCOL_ERROR;
    }
    if n > 0 {
      cr := cr.(reason := bs[2..]);
      var good := CheckUtf8(cr.reason);
      if !good {
        return cr, PROTOCOL_ERROR;
      }
    } else {
      cr := cr.(reason := []);
      assert bs[2..] == [];
      EmptyIsUtf8();
    }
    return cr, NONE;
  }

  lemma EmptyIsUtf8()
    ensures Utf8Octets([])
  {
  }

  /** A payload of two octets or more comes from one reason only. */
  lemma ClosePayloadParts(bs: seq<u8>)
    requires 2 <= |bs| <= 125
    ensures BigUint16(bs[..2]) < 0x1_0000 && ToBig(BigUint16(bs[..2]), 2) + bs[2..] == bs
    ensures forall c: CloseReason :: c.Valid() && ClosePayload(c) == bs ==>
              c.code == BigUint16(bs[..2]) && c.reason == bs[2..]
  {
    hide ToBig, BigEndian;
    BigUint16IsBigEndian(bs[..2]);
    ToBigBig(bs[..2]);
    RadixValues();
    forall c: CloseReason | c.Valid() && ClosePayload(c) == bs
      ensures c.code == BigUint16(bs[..2]) && c.reason == bs[2..]
    {
      BigToBig(c.code, 2);
      assert bs[..2] == ToBig(c.code, 2);
    }
  }

  /** Frames the control writers make are admissible to the other side, whatever it is reading. */
  lemma ControlFrameAdmissible(op: opcode, payload: seq<u8>, role: Role, key: bv32, st: State, max: nat)
    requires IsControl(op) && !IsReserved(op) && |payload| <= 125
    ensures var f := Frame(OwnHeader(op, true, |payload|, role, key), payload);
      && f.Valid() && |Wire(f)| <= 2 + 4 + 125
      && Sendable([f], st, Config(Peer(role), max))
      && WireAll([f]) == Wire(f) && After(Headers([f]), st) == st
  {
    hide Covered, FirstOctet, SecondOctet;
    var f := Frame(OwnHeader(op, true, |payload|, role, key), payload);
    var cfg := Config(Peer(role), max);
    SendableNone(st, cfg);
    SendableAppend([], f, st, cfg);
    assert [] + [f] == [f];
    WireAllAppend([], f);
  }

  /** A close reason written by one side and read by the other, in the middle of whatever the
      reader is doing: the frame always fits the control frame buffer and is always accepted, and
      the reason comes back exactly when it can be told apart on the wire. */
  method CloseExchange(role: Role, cr: CloseReason, key: bv32, peer: Receiver)
    returns (back: CloseReason, code: nat)
    requires cr.Valid() && peer.Valid() && peer.rdNeed == 0
    requires peer.role == Peer(role)
    modifies peer
    ensures code == NONE && back == cr <==> Legal(cr)
    ensures cr.code == NONE ==> code == NONE && back == CloseReason(NONE, [])
    ensures peer.St() == old(peer.St())
  {
    hide Utf8Octets, Wire, Sendable, ToBig;
    ghost var f := CloseFrame(cr, role, key);
    ghost var cfg := peer.Cfg();
    ControlFrameAdmissible(CLOSE, ClosePayload(cr), role, key, peer.St(), peer.rdMsgMax);
    var db := new Streambuf(139);
    var ok := WriteClose(db, role, cr, key);
    assert db.Data() == Wire(f);
    var o, fs := ReceiveAll(peer, db, [f]);
    back, code := ReadClose(fs[0].payload);
    if cr.code == NONE {
      assert Legal(CloseReason(NONE, []));
    } else if code == NONE {
      ClosePayloadParts(ClosePayload(cr));
    }
  }

  // ---- Ping and pong frames ----

  function PingFrame(op: opcode, data: seq<u8>, role: Role, key: bv32): Frame {
    Frame(OwnHeader(op, true, |data|, role, key), data)
  }

  /** write_ping() */
  method WritePing(db: Streambuf, role: Role, op: opcode, data: seq<u8>, key: bv32) returns (ok: bool)
    requires db.Valid() && |data| <= 125
    modifies db`last, db`out, db.mem
    ensures db.Valid() && PingFrame(op, data, role, key).Valid()
    ensures ok <==> |Wire(PingFrame(op, data, role, key))| <= old(db.Room())
    ensures ok ==> db.Data() == old(db.Data()) + Wire(PingFrame(op, data, role, key))
  {
    hide Print, KeyReady, Covered, CoveredFrom, Doubled, Wire, Streambuf.Data;
    var fh := OwnHeader(op, true, |data|, role, key);
    FrameParts(db.Data(), PingFrame(op, data, role, key));
    ok := WriteHeader(db, fh);
    if !ok || data == [] {
      return;
    }
    var wide := Doubled(fh.key);
    DoubledReady(fh);
    CoveredAll(data, fh);
    ok, wide := PutCovered(db, data, fh, wide, 0);
  }

  lemma CoveredAll(s: seq<u8>, h: Header)
    ensures CoveredFrom(s, h, 0) == Covered(s, h)
  {
    RotatedNone(h.key);
  }

  /** A ping or pong written by one side comes back unchanged at the other. */
  method PingExchange(role: Role, op: opcode, data: seq<u8>, key: bv32, peer: Receiver)
    returns (back: seq<u8>)
    requires (op == PING || op == PONG) && |data| <= 125
    requires peer.Valid() && peer.rdNeed == 0
    requires peer.role == Peer(role)
    modifies peer
    ensures back == data && peer.St() == old(peer.St())
  {
    hide Wire, Sendable;
    ControlFrameAdmissible(op, data, role, key, peer.St(), peer.rdMsgMax);
    var db := new Streambuf(139);
    var ok := WritePing(db, role, op, data, key);
    assert db.Data() == Wire(PingFrame(op, data, role, key));
    var o, fs := ReceiveAll(peer, db, [PingFrame(op, data, role, key)]);
    back := fs[0].payload;
  }
}
