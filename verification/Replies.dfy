/** What read_frame() of include/beast/websocket/impl/stream.ipp writes: a pong for each ping, and
    the close frame that ends the connection. */
module Replies {
  import opened Bytes
  import opened FrameHeader
  import opened Protocol
  import opened StaticStreambuf
  import opened Receive
  import opened ControlFrames
  import opened TextMessages

  /** The data of the pings among the frames. */
  function Pings(fs: seq<Frame>): seq<seq<u8>> {
    if fs == [] then []
    else Pings(fs[..|fs| - 1]) + (if fs[|fs| - 1].h.op == PING then [fs[|fs| - 1].payload] else [])
  }

  /** A pong for each ping, with its data and in the order of the pings. */
  ghost predicate Answered(pongs: seq<Frame>, fs: seq<Frame>, role: Role) {
    && |pongs| == |Pings(fs)|
    && forall i :: 0 <= i < |pongs| ==> ControlBy(pongs[i], PONG, Pings(fs)[i], role)
  }

  lemma NothingToAnswer(role: Role)
    ensures Answered([], [], role) && WireAll([]) == []
  {
  }

  lemma AnsweredMore(pongs: seq<Frame>, fs: seq<Frame>, f: Frame, more: seq<Frame>, role: Role)
    requires Answered(pongs, fs, role)
    requires if f.h.op == PING then |more| == 1 && ControlBy(more[0], PONG, f.payload, role) else more == []
    ensures Answered(pongs + more, fs + [f], role)
  {
    hide ControlBy;
    assert (fs + [f])[..|fs|] == fs;
    assert Pings(fs + [f]) == Pings(fs) + (if f.h.op == PING then [f.payload] else []);
  }

  /** The pong that answers a ping. */
  method SendPong(role: Role, data: seq<u8>) returns (octets: seq<u8>, ghost g: Frame)
    requires |data| <= 125
    ensures ControlBy(g, PONG, data, role) && octets == Wire(g)
  {
    hide Wire, Sendable;
    var key := MaskKey();
    ControlFrameAdmissible(PONG, data, role, key, State(false, 0, TEXT), 0);
    var db := new Streambuf(139);
    var ok := WritePing(db, role, PONG, data, key);
    g := PingFrame(PONG, data, role, key);
    octets := db.mem[db.inp..db.out];
    assert [] + Wire(g) == Wire(g);
  }

  /** The close frame with the reason, unless one has been sent before. */
  method SendClose(s: Stream, cr: CloseReason) returns (octets: seq<u8>, ghost gs: seq<Frame>)
    requires cr.Valid()
    modifies s`wrClose
    ensures s.wrClose
    ensures if old(s.wrClose) then gs == []
            else |gs| == 1 && ControlBy(gs[0], CLOSE, ClosePayload(cr), s.base.role)
    ensures (forall i :: 0 <= i < |gs| ==> gs[i].h.Valid()) && octets == WireAll(gs)
  {
    hide Wire, Sendable;
    octets, gs := [], [];
    if !s.wrClose {
      s.wrClose := true;
      var key := MaskKey();
      ControlFrameAdmissible(CLOSE, ClosePayload(cr), s.base.role, key, State(false, 0, TEXT), 0);
      var db := new Streambuf(139);
      var ok := WriteClose(db, s.base.role, cr, key);
      ghost var g := CloseFrame(cr, s.base.role, key);
      octets := db.mem[db.inp..db.out];
      assert [] + Wire(g) == Wire(g);
      gs := [g];
    }
  }

  /** The peer accepts such frames, whatever it is reading, and they leave its message alone. */
  lemma {:induction false} RepliesAccepted(gs: seq<Frame>, role: Role, st: State, max: nat)
    requires forall i :: 0 <= i < |gs| ==> ControlBy(gs[i], gs[i].h.op, gs[i].payload, role)
    ensures Sendable(gs, st, Config(Peer(role), max)) && After(Headers(gs), st) == st
    decreases |gs|
  {
    hide Accepted, After, Sendable;
    if gs == [] {
      SendableNone(st, Config(Peer(role), max));
    } else {
      var n := |gs| - 1;
      RepliesAccepted(gs[..n], role, st, max);
      ControlAdmissible(gs[n], role, st, max);
      SendableAppend(gs[..n], gs[n], st, Config(Peer(role), max));
      assert gs == gs[..n] + [gs[n]];
    }
  }

  lemma ControlAdmissible(g: Frame, role: Role, st: State, max: nat)
    requires ControlBy(g, g.h.op, g.payload, role)
    ensures g.Valid() && Admissible(g.h, st, Config(Peer(role), max)) && Next(g.h, st) == st
  {
  }
}
