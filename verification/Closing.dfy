/** The closing handshake: close() of include/beast/websocket/impl/stream.ipp on one side, read() on
    both. */
module Closing {
  import opened Bytes
  import opened FrameHeader
  import opened Protocol
  import opened StaticStreambuf
  import opened StreamBase
  import opened Receive
  import opened ControlFrames
  import opened TextMessages
  import opened Utf8Spec
  import opened Utf8Checker
  import opened Replies
  import opened FrameReader
  import opened WholeMessages
  import opened MessageReader
  import opened ReadResults

  /** The reason as far as its payload tells: without a code there is no text. */
  function AsRead(cr: CloseReason): CloseReason {
    if cr.code == NONE then CloseReason(NONE, []) else cr
  }

  /** What read() makes of a close frame with the reason. */
  ghost function CloseResult(cr: CloseReason): Result {
    if Legal(AsRead(cr)) then Closed(AsRead(cr)) else Failure(PROTOCOL_ERROR)
  }

  lemma NotLegal(cr: CloseReason)
    requires cr.Valid() && !Legal(AsRead(cr))
    ensures forall c: CloseReason :: Legal(c) ==> ClosePayload(c) != ClosePayload(cr)
  {
    forall c: CloseReason | Legal(c) ensures ClosePayload(c) != ClosePayload(cr) {
      if ClosePayload(c) == ClosePayload(cr) {
        assert cr.code != NONE;
        ClosePayloadParts(ClosePayload(cr));
      }
    }
  }

  /** Whatever is being read, a close frame at the front of the stream is the end. */
  lemma CloseEnds(g: Frame, cr: CloseReason, role: Role, held: seq<u8>, st: State, max: nat)
    requires ControlBy(g, CLOSE, ClosePayload(cr), role) && cr.Valid() && Utf8Automaton.Completable(held)
    ensures g.h.Valid() && WireAll([g]) == Wire(g)
    ensures EndsAfter(CloseResult(cr), g, [], Wire(g), held, st, Config(Peer(role), max))
  {
    hide Wire, Admissible, BadFrame, Hopeless, TooBig, Rejects, ClosePayload, Legal, Utf8Automaton.Completable;
    var cfg := Config(Peer(role), max);
    ControlAdmissible(g, role, st, max);
    SendableNone(st, cfg);
    WireAllAppend([], g);
    assert [] + [g] == [g] && [] + Wire(g) == Wire(g);
    assert WireAll([]) == [] && Wire(g)[0..] == Wire(g);
    NothingSoFar(held, st);
    if Legal(AsRead(cr)) {
      SamePayload(cr);
    } else {
      NotLegal(cr);
    }
  }

  lemma SamePayload(cr: CloseReason)
    ensures ClosePayload(AsRead(cr)) == ClosePayload(cr)
  {
  }

  lemma CloseCodes(cr: CloseReason)
    ensures CloseResult(cr) == if Legal(AsRead(cr)) then Closed(AsRead(cr)) else Failure(1002)
    ensures ReplyCode(CloseResult(cr)) == if !Legal(AsRead(cr)) then 1002 else if cr.code == 0 then 1000 else cr.code
  {
    hide Legal;
  }

  lemma ReplyLegal(cr: CloseReason)
    requires cr.Valid()
    ensures var code := ReplyCode(CloseResult(cr));
      CloseReason(code, []).Valid() && CloseResult(CloseReason(code, [])) == Closed(CloseReason(code, []))
  {
    hide Utf8Octets;
    EmptyIsUtf8();
  }

  /** read() on a stream that holds just a close frame. */
  method ReadClosing(s: Stream, db: Streambuf, ghost gs: seq<Frame>, ghost cr: CloseReason, ghost role: Role)
    returns (r: Result, wrote: seq<u8>, ghost closing: seq<Frame>)
    requires s.Valid() && s.base.Valid() && s.base.rdNeed == 0 && role == Peer(s.base.role) && db.Valid() && cr.Valid()
    requires |gs| == 1 && gs[0].h.Valid() && ControlBy(gs[0], CLOSE, ClosePayload(cr), role) && db.Data() == WireAll(gs)
    modifies s, s.base, s.check, db`inp
    ensures s.Valid() && s.wrClose && s.base.role == old(s.base.role) && r == CloseResult(cr)
    ensures if old(s.wrClose) then closing == []
            else && |closing| == 1
                 && ControlBy(closing[0], CLOSE, ClosePayload(CloseReason(ReplyCode(r), [])), s.base.role)
    ensures (forall i :: 0 <= i < |closing| ==> closing[i].h.Valid()) && wrote == WireAll(closing)
  {
    hide Wire, WireAll, EndsAfter, Delivers, ControlBy, ReplyCode, ClosePayload, Sent, Legal, After, DataOf;
    hide Utf8Automaton.Completable, Streambuf.Data, Checker.Text, Checker.Valid;
    ghost var held, st, cfg := s.check.Text(), s.base.St(), s.base.Cfg();
    NothingToCheck(s.check);
    CloseEnds(gs[0], cr, role, held, st, cfg.max);
    assert gs == [gs[0]];
    var payload;
    ghost var fs, f, pongs;
    r, payload, wrote, fs, f, pongs, closing := ReadMessage(s, db, [], []);
    OneResult(r, f, fs, CloseResult(cr), gs[0], [], Wire(gs[0]), held, st, cfg);
    NothingToAnswer(role);
    assert pongs == [] && [] + WireAll(closing) == WireAll(closing);
  }

  /** close() on side a, then read() on b and on a, each of them between two frames of whatever it
      was reading: b gets the reason, or finds it illegal and fails; either way it answers with one
      close frame, from which a gets the code of the answer; and a writes nothing more. */
  method CloseHandshake(a: Stream, b: Stream, cr: CloseReason) returns (rb: Result, ra: Result, wrote: seq<u8>)
    requires a.Valid() && a.base.Valid() && a.base.rdNeed == 0 && !a.wrClose
    requires b.Valid() && b.base.Valid() && b.base.rdNeed == 0 && !b.wrClose
    requires a != b && a.base != b.base && a.check != b.check && b.base.role == Peer(a.base.role)
    requires cr.Valid()
    modifies a, b, a.base, b.base, a.check, b.check
    ensures a.wrClose && b.wrClose
    ensures rb == if Legal(AsRead(cr)) then Closed(AsRead(cr)) else Failure(1002)
    ensures var code := if !Legal(AsRead(cr)) then 1002 else if cr.code == 0 then 1000 else cr.code;
      ra == Closed(CloseReason(code, []))
    ensures wrote == []
  {
    hide WireAll, ControlBy, CloseResult, ReplyCode, ClosePayload, Legal, Streambuf.Data, Checker.Valid;
    CloseCodes(cr);
    var octets;
    ghost var gs;
    octets, gs := SendClose(a, cr);
    var db := OnTheWire(octets);
    rb, octets, gs := ReadClosing(b, db, gs, cr, a.base.role);
    ReplyLegal(cr);
    db := OnTheWire(octets);
    ra, wrote, gs := ReadClosing(a, db, gs, CloseReason(ReplyCode(rb), []), b.base.role);
    NoFrames();
  }
}
