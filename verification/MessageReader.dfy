/** Reading messages: read() of include/beast/websocket/impl/stream.ipp, from the octets on the wire
    to payloads whose text has been checked. */
module MessageReader {
  import opened Bytes
  import opened Endian
  import opened FrameHeader
  import opened FrameWriter
  import opened Protocol
  import opened StaticStreambuf
  import opened StreamBase
  import opened Receive
  import opened ControlFrames
  import opened TextMessages
  import opened Replies
  import opened Utf8Spec
  import opened Utf8Checker
  import opened FrameReader
  import opened WholeMessages

  const NORMAL: nat := 1000
  const BAD_PAYLOAD: nat := 1007

  datatype Result = Message(op: opcode) | BadPayload | Closed(cr: CloseReason) | Failure(code: nat) | EndOfStream

  /** What the checker holds in the middle of a message whose payload so far is p. */
  ghost function TextSoFar(held: seq<u8>, p: seq<u8>, st: State): seq<u8> {
    if st.cont && st.op == TEXT then held + p else held
  }

  /** The payload so far with frame f's. */
  function PayloadWith(p: seq<u8>, f: Frame): seq<u8> {
    p + DataIn(f)
  }

  lemma TextSoFarStep(held: seq<u8>, p: seq<u8>, st: State, f: Frame, cfg: Config)
    requires Admissible(f.h, st, cfg) && (!st.cont ==> p == [])
    ensures var next, q := Next(f.h, st), PayloadWith(p, f);
      && (BadFrame(TextSoFar(held, p, st), f, next) <==>
          !IsControl(f.h.op) && next.op == TEXT && TextBad(held + q, f.h.fin && |f.payload| == f.h.len))
      && (Middle(f) ==> TextAfter(TextSoFar(held, p, st), f, next) == TextSoFar(held, q, next)
                        && (!next.cont ==> q == []))
      && (Final(f) ==> TextAfter(TextSoFar(held, p, st), f, next) == if next.op == TEXT then [] else held)
  {
    hide Fits, TextBad;
    assert p + [] == p && [] + f.payload == f.payload && held + [] == held;
    Assoc(held, p, f.payload);
  }

  lemma PayloadStepOf(fs: seq<Frame>, f: Frame)
    ensures DataOf(fs + [f]) == PayloadWith(DataOf(fs), f)
  {
    DataOfAppend(fs, [f]);
    DataOfOne(f);
  }

  lemma TextBadMeans(t: seq<u8>, u: seq<u8>, fin: bool)
    requires t <= u && (fin ==> t == u)
    ensures TextBad(t, fin) ==> !Utf8Octets(u)
    ensures fin && !TextBad(t, fin) ==> Utf8Octets(u)
  {
    hide Utf8Octets, Utf8Automaton.Completable;
    if TextBad(t, fin) && !fin {
      BadStaysBad(t, u);
    }
  }

  /** If a message was sent, then a bad frame means that it is text and not UTF-8. */
  lemma BadMessage(fs: seq<Frame>, left: seq<Frame>, d: seq<u8>, st: State, held: seq<u8>,
                   sent: seq<Frame>, more: seq<u8>, d0: seq<u8>, st0: State, cfg: Config, f: Frame)
    requires Going(fs, left, d, st, sent, more, d0, st0, cfg) && Sent(sent, more, d0, st0, cfg)
    requires f.Valid() && Wire(f) <= d && Admissible(f.h, st, cfg) && (!st.cont ==> DataOf(fs) == [])
    requires BadFrame(TextSoFar(held, DataOf(fs), st), f, Next(f.h, st))
    ensures After(Headers(sent), st0).op == TEXT && !Utf8Octets(held + DataOf(sent))
  {
    hide Going, Sent, Wire, Admissible, After, BadFrame, TextBad, Utf8Octets, DataOf, TextSoFar, TextAfter;
    GoingFront(fs, left, d, st, sent, more, d0, st0, cfg);
    LeftNotEmpty(fs, left, d, st, sent, more, d0, st0, cfg);
    TextSoFarStep(held, DataOf(fs), st, f, cfg);
    GoingOp(fs, left, d, st, sent, more, d0, st0, cfg, f);
    var q := DataOf(fs) + f.payload;
    assert held + q <= held + DataOf(sent) by {
      assert DataOf(sent)[..|q|] == q;
      assert (held + DataOf(sent))[..|held + q|] == held + q;
    }
    TextBadMeans(held + q, held + DataOf(sent), f.h.fin);
  }

  /** What stands at the front of the rest of the stream when reading ends: held is what the
      checker holds, st the state of the receiver. */
  ghost predicate Ends(r: Result, f: Frame, rest: seq<u8>, held: seq<u8>, st: State, cfg: Config) {
    match r
    case Message(op) =>
      && f.Valid() && Wire(f) <= rest && Admissible(f.h, st, cfg) && Final(f)
      && op == Next(f.h, st).op && !BadFrame(held, f, Next(f.h, st))
    case BadPayload => Front(f, rest) && Admissible(f.h, st, cfg) && BadFrame(held, f, Next(f.h, st))
    case Closed(cr) => CloseFirst(f, rest, st, cfg) && Legal(cr) && ClosePayload(cr) == f.payload
    case Failure(code) =>
      || FailsWith(code, rest, st, cfg)
      || (&& code == PROTOCOL_ERROR && CloseFirst(f, rest, st, cfg)
          && forall c: CloseReason :: Legal(c) ==> ClosePayload(c) != f.payload)
    case EndOfStream => RunsOut(rest, held, st, cfg)
  }

  /** An admissible close frame. */
  ghost predicate CloseFirst(f: Frame, rest: seq<u8>, st: State, cfg: Config) {
    f.Valid() && Wire(f) <= rest && Admissible(f.h, st, cfg) && f.h.op == CLOSE
  }

  /** The stream d0 starts with the frames fs, an accepted run that is not the whole of a message,
      and the result r is due to what follows. */
  ghost predicate EndsAfter(r: Result, f: Frame, fs: seq<Frame>, d0: seq<u8>, held: seq<u8>, st0: State, cfg: Config) {
    && Sendable(fs, st0, cfg) && WireAll(fs) <= d0
    && (forall i :: 0 <= i < |fs| ==> Middle(fs[i]))
    && var st := After(Headers(fs), st0);
    Utf8Automaton.Completable(TextSoFar(held, DataOf(fs), st)) &&
    Ends(r, f, d0[|WireAll(fs)|..], TextSoFar(held, DataOf(fs), st), st, cfg)
  }

  /** The payload is that of the message whose frames are whole, read from d0 up to d. */
  ghost predicate Delivers(op: opcode, payload: seq<u8>, whole: seq<Frame>, d0: seq<u8>, d: seq<u8>,
                           held: seq<u8>, st0: State, cfg: Config) {
    && Sendable(whole, st0, cfg) && MessageFrames(whole) && d0 == WireAll(whole) + d
    && op == After(Headers(whole), st0).op && payload == DataOf(whole)
    && (op == TEXT ==> Utf8Octets(held + payload))
  }

  /** A control frame: a ping is answered, and a close ends the connection with the result r. */
  method TakeControlFrame(op: opcode, p: seq<u8>, role: Role)
    returns (r: Result, octets: seq<u8>, ghost answer: seq<Frame>)
    requires |p| <= 125
    ensures op == CLOSE ==>
      match r
      case Closed(cr) => Legal(cr) && ClosePayload(cr) == p
      case Failure(code) => code == PROTOCOL_ERROR && forall c: CloseReason :: Legal(c) ==> ClosePayload(c) != p
      case _ => false
    ensures if op == PING then |answer| == 1 && ControlBy(answer[0], PONG, p, role) else answer == []
    ensures (forall i :: 0 <= i < |answer| ==> answer[i].h.Valid()) && octets == WireAll(answer)
  {
    hide Legal, ClosePayload, Wire;
    r, octets, answer := EndOfStream, [], [];
    if op == CLOSE {
      var cr, code := ReadClose(p);
      r := if code == NONE then Closed(cr) else Failure(code);
    } else if op == PING {
      ghost var g;
      octets, g := SendPong(role, p);
      answer := [g];
      WireAllAppend([], g);
      assert [] + [g] == [g] && [] + Wire(g) == Wire(g);
    }
  }

  lemma ControlPayload(f: Frame, st: State, cfg: Config)
    requires f.Valid() && Admissible(f.h, st, cfg) && IsControl(f.h.op)
    ensures |f.payload| <= 125 && Next(f.h, st) == st
    ensures f.h.op == CLOSE || Middle(f)
  {
    hide Fits;
  }

  /** One frame of read(): over when it ends a message or the connection.  A ping is answered. */
  method TakeFrame(s: Stream, db: Streambuf)
    returns (over: bool, r: Result, p: seq<u8>, octets: seq<u8>, ghost f: Frame, ghost answer: seq<Frame>)
    requires s.Valid() && s.base.Valid() && db.Valid() && s.base.rdNeed == 0
    modifies s.base`rdFh, s.base`rdKey, s.base`rdSize, s.base`rdOpcode, s.base`rdNeed, s.base`rdCont, s.check, db`inp
    ensures s.Valid() && s.base.Valid() && db.Valid()
    ensures over ==> Ends(r, f, old(db.Data()), old(s.check.Text()), old(s.base.St()), s.base.Cfg())
    ensures !over || r.Message? ==>
      && f.Valid() && Admissible(f.h, old(s.base.St()), s.base.Cfg()) && old(db.Data()) == Wire(f) + db.Data()
      && s.base.St() == Next(f.h, old(s.base.St())) && s.base.rdNeed == 0 && p == DataIn(f)
      && s.check.Text() == TextAfter(old(s.check.Text()), f, s.base.St())
      && (if over then Final(f) else Middle(f))
    ensures if !over && f.h.op == PING then |answer| == 1 && ControlBy(answer[0], PONG, f.payload, s.base.role)
            else answer == []
    ensures (forall i :: 0 <= i < |answer| ==> answer[i].h.Valid()) && octets == WireAll(answer)
  {
    hide Wire, WireAll, Admissible, Next, BadFrame, TextBad, TextAfter, Hopeless, Rejects, TooBig, Frame.Valid;
    hide Streambuf.Data, Checker.Text, Checker.Valid, ControlBy, Legal, ClosePayload;
    ghost var st, cfg := s.base.St(), s.base.Cfg();
    over, octets, answer := true, [], [];
    NoFrames();
    var o, bad;
    o, bad, p, f := NextFrame(s, db);
    if !o.Done? {
      r := if o.Failed? then Failure(o.code) else EndOfStream;
      return;
    }
    if bad {
      r := BadPayload;
      return;
    }
    if IsControl(s.base.rdFh.op) {
      ControlPayload(f, st, cfg);
      r, octets, answer := TakeControlFrame(s.base.rdFh.op, p, s.base.role);
      p := [];
      over := s.base.rdFh.op == CLOSE;
    } else {
      over := s.base.rdFh.fin;
      r := Message(s.base.rdOpcode);
    }
  }

  /** If a message was sent, then the result is the one it deserves. */
  lemma SentEnds(r: Result, f: Frame, fs: seq<Frame>, left: seq<Frame>, d: seq<u8>, st: State, held: seq<u8>,
                 sent: seq<Frame>, more: seq<u8>, d0: seq<u8>, st0: State, cfg: Config)
    requires Going(fs, left, d, st, sent, more, d0, st0, cfg) && Sent(sent, more, d0, st0, cfg)
    requires Ends(r, f, d, TextSoFar(held, DataOf(fs), st), st, cfg) && (!st.cont ==> DataOf(fs) == [])
    ensures var op := After(Headers(sent), st0).op;
      if op == TEXT && !Utf8Octets(held + DataOf(sent)) then r == BadPayload
      else r == Message(op) && fs + [f] == sent
  {
    hide Going, Sent, Wire, Admissible, Next, After, BadFrame, TextBad, Utf8Octets, DataOf, TextSoFar, TextAfter;
    hide Hopeless, Rejects, TooBig, Legal, ClosePayload, Frame.Valid, Front;
    GoingFront(fs, left, d, st, sent, more, d0, st0, cfg);
    WholeIsFront(left[0], d);
    if r.BadPayload? {
      OneFront(d, f, left[0]);
      BadMessage(fs, left, d, st, held, sent, more, d0, st0, cfg, f);
    } else {
      NotBoth(f);
      GoingOp(fs, left, d, st, sent, more, d0, st0, cfg, f);
      TextSoFarStep(held, DataOf(fs), st, f, cfg);
      TextBadMeans(held + DataOf(sent), held + DataOf(sent), true);
    }
  }

  /** The loop of read(): frames up to the end of a message, or up to the first that ends the
      connection; pings in between are answered, pongs are passed over. */
  method TakeMessage(s: Stream, db: Streambuf, ghost sent: seq<Frame>, ghost more: seq<u8>)
    returns (r: Result, payload: seq<u8>, wrote: seq<u8>, ghost fs: seq<Frame>, ghost f: Frame, ghost pongs: seq<Frame>)
    requires s.Valid() && s.base.Valid() && db.Valid() && s.base.rdNeed == 0
    modifies s.base`rdFh, s.base`rdKey, s.base`rdSize, s.base`rdOpcode, s.base`rdNeed, s.base`rdCont, s.check, db`inp
    ensures s.Valid() && s.base.Valid() && db.Valid()
    ensures EndsAfter(r, f, fs, old(db.Data()), old(s.check.Text()), old(s.base.St()), s.base.Cfg())
    ensures Answered(pongs, fs, s.base.role) && (forall i :: 0 <= i < |pongs| ==> pongs[i].h.Valid())
    ensures wrote == WireAll(pongs)
    ensures r.Message? ==>
      && Delivers(r.op, payload, fs + [f], old(db.Data()), db.Data(),
                  old(s.check.Text()), old(s.base.St()), s.base.Cfg())
      && s.base.St() == After(Headers(fs + [f]), old(s.base.St())) && s.base.rdNeed == 0
      && s.check.Text() == if r.op == TEXT then [] else old(s.check.Text())
    ensures Sent(sent, more, old(db.Data()), old(s.base.St()), s.base.Cfg()) ==>
      var op := After(Headers(sent), old(s.base.St())).op;
      if op == TEXT && !Utf8Octets(old(s.check.Text()) + DataOf(sent)) then r == BadPayload
      else r == Message(op) && payload == DataOf(sent) && fs + [f] == sent && db.Data() == more
  {
    hide Going, Sent, Wire, WireAll, Sendable, MessageFrames, Admissible, Next, After, BadFrame, TextBad, Ends;
    hide Streambuf.Data, Checker.Text, Checker.Valid, Utf8Octets, DataOf, TextAfter, TextSoFar, Frame.Valid;
    hide Answered, ControlBy, EndsAfter, Utf8Automaton.Completable, Middle, Final, DataIn;
    ghost var d0, st0, cfg, held, left := db.Data(), s.base.St(), s.base.Cfg(), s.check.Text(), sent;
    payload, wrote, fs, pongs := [], [], [], [];
    GoingStart(sent, more, d0, st0, cfg);
    NothingSoFar(held, st0);
    NothingToAnswer(s.base.role);
    while true
      invariant s.Valid() && s.base.Valid() && db.Valid() && s.base.rdNeed == 0
      invariant Going(fs, left, db.Data(), s.base.St(), sent, more, d0, st0, cfg)
      invariant payload == DataOf(fs) && (!s.base.rdCont ==> payload == [])
      invariant s.check.Text() == TextSoFar(held, payload, s.base.St())
      invariant Answered(pongs, fs, s.base.role) && (forall i :: 0 <= i < |pongs| ==> pongs[i].h.Valid())
      invariant wrote == WireAll(pongs)
      decreases |db.Data()|
    {
      ghost var d, st := db.Data(), s.base.St();
      NothingToCheck(s.check);
      var over, p, octets;
      ghost var answer;
      over, r, p, octets, f, answer := TakeFrame(s, db);
      PayloadStepOf(fs, f);
      if over {
        GoingEnds(r, f, fs, left, d, st, held, sent, more, d0, st0, cfg);
        if Sent(sent, more, d0, st0, cfg) {
          SentEnds(r, f, fs, left, d, st, held, sent, more, d0, st0, cfg);
        }
        if r.Message? {
          GoingEnd(fs, left, d, st, sent, more, d0, st0, cfg, f, db.Data());
          EndDelivers(f, fs, d, st, held, cfg, r);
          payload := payload + p;
        }
        return;
      }
      FrameRest(f, d, db.Data());
      TextSoFarStep(held, payload, st, f, cfg);
      GoingStep(fs, left, d, st, sent, more, d0, st0, cfg, f, db.Data());
      AnsweredMore(pongs, fs, f, answer, s.base.role);
      PongsMore(pongs, answer);
      left := if left == [] then [] else left[1..];
      fs, pongs := fs + [f], pongs + answer;
      payload, wrote := payload + p, wrote + octets;
    }
  }

  lemma FrameRest(f: Frame, d: seq<u8>, d': seq<u8>)
    requires f.Valid() && d == Wire(f) + d'
    ensures |d'| < |d|
  {
    hide Wire;
    WireNonEmpty(f);
  }

  /** The final frame of a text that is not bad completes it. */
  lemma EndDelivers(f: Frame, fs: seq<Frame>, d: seq<u8>, st: State, held: seq<u8>, cfg: Config, r: Result)
    requires r.Message? && Ends(r, f, d, TextSoFar(held, DataOf(fs), st), st, cfg) && (!st.cont ==> DataOf(fs) == [])
    ensures r.op == Next(f.h, st).op && (r.op == TEXT ==> Utf8Octets(held + PayloadWith(DataOf(fs), f)))
    ensures TextAfter(TextSoFar(held, DataOf(fs), st), f, Next(f.h, st)) == if r.op == TEXT then [] else held
  {
    hide Wire, Admissible, Next, BadFrame, TextBad, Utf8Octets, DataOf, TextSoFar, TextAfter;
    TextSoFarStep(held, DataOf(fs), st, f, cfg);
    var q := held + PayloadWith(DataOf(fs), f);
    TextBadMeans(q, q, true);
  }

  lemma GoingEnds(r: Result, f: Frame, fs: seq<Frame>, left: seq<Frame>, d: seq<u8>, st: State, held: seq<u8>,
                  sent: seq<Frame>, more: seq<u8>, d0: seq<u8>, st0: State, cfg: Config)
    requires Going(fs, left, d, st, sent, more, d0, st0, cfg)
    requires Utf8Automaton.Completable(TextSoFar(held, DataOf(fs), st))
    requires Ends(r, f, d, TextSoFar(held, DataOf(fs), st), st, cfg)
    ensures EndsAfter(r, f, fs, d0, held, st0, cfg)
  {
    hide WireAll, Accepted, After, Middle, Ends, TextSoFar, DataOf;
    assert d0[|WireAll(fs)|..] == d;
  }

  lemma PongsMore(pongs: seq<Frame>, answer: seq<Frame>)
    requires forall i :: 0 <= i < |pongs| ==> pongs[i].h.Valid()
    requires forall i :: 0 <= i < |answer| ==> answer[i].h.Valid()
    ensures forall i :: 0 <= i < |pongs + answer| ==> (pongs + answer)[i].h.Valid()
    ensures WireAll(pongs + answer) == WireAll(pongs) + WireAll(answer)
    ensures answer == [] ==> pongs + answer == pongs
  {
    hide WireAll, Header.Valid;
    WireAllConcat(pongs, answer);
  }

  /** The code of the close frame that read() sends when it does not deliver a message. */
  function ReplyCode(r: Result): nat {
    match r
    case BadPayload => BAD_PAYLOAD
    case Failure(code) => code
    case Closed(cr) => if cr.code == NONE then NORMAL else cr.code
    case _ => NONE
  }

  /** The octets of the close frame that a result calls for: the code received or 1000, 1007,
      1009 or 1002; d is the rest of the stream. */
  ghost predicate CloseOctets(p: seq<u8>, r: Result, f: Frame, d: seq<u8>, st: State, cfg: Config) {
    match r
    case Closed(_) => p == if |f.payload| < 2 then [0x03, 0xE8] else f.payload[..2]
    case BadPayload => p == [0x03, 0xEF]
    case Failure(_) => p == if TooBig(d, st, cfg) then [0x03, 0xF1] else [0x03, 0xEA]
    case _ => false
  }

  /** The same for the rest of the stream d0 behind the frames fs. */
  ghost predicate ClosesWith(p: seq<u8>, r: Result, f: Frame, fs: seq<Frame>, d0: seq<u8>, st0: State, cfg: Config) {
    && Sendable(fs, st0, cfg) && WireAll(fs) <= d0
    && CloseOctets(p, r, f, d0[|WireAll(fs)|..], After(Headers(fs), st0), cfg)
  }

  /** A code without text, in octets. */
  lemma CodeOctets(hi: u8, lo: u8, code: nat)
    requires code == Val(hi) * 256 + Val(lo) != NONE
    ensures ClosePayload(CloseReason(code, [])) == [hi, lo]
  {
    hide ToBig, BigEndian, Val;
    BigUint16IsBigEndian([hi, lo]);
    ToBigBig([hi, lo]);
  }

  lemma CodesInOctets()
    ensures ClosePayload(CloseReason(1000, [])) == [0x03, 0xE8] && ClosePayload(CloseReason(1002, [])) == [0x03, 0xEA]
    ensures ClosePayload(CloseReason(1007, [])) == [0x03, 0xEF] && ClosePayload(CloseReason(1009, [])) == [0x03, 0xF1]
  {
    hide ClosePayload;
    CodeOctets(0x03, 0xE8, 1000);
    CodeOctets(0x03, 0xEA, 1002);
    CodeOctets(0x03, 0xEF, 1007);
    CodeOctets(0x03, 0xF1, 1009);
  }

  /** The reply to a close frame repeats its code. */
  lemma CodeBack(cr: CloseReason)
    requires Legal(cr) && cr.code != NONE
    ensures |ClosePayload(cr)| >= 2 && ClosePayload(CloseReason(cr.code, [])) == ClosePayload(cr)[..2]
  {
    hide ToBig, IsValidCode;
    assert ToBig(cr.code, 2) + [] == ToBig(cr.code, 2);
  }

  lemma ReplyOctets(r: Result, f: Frame, d: seq<u8>, held: seq<u8>, st: State, cfg: Config)
    requires Ends(r, f, d, held, st, cfg) && (r.BadPayload? || r.Failure? || r.Closed?)
    ensures CloseOctets(ClosePayload(CloseReason(ReplyCode(r), [])), r, f, d, st, cfg)
  {
    hide Wire, Admissible, BadFrame, Hopeless, TooBig, Rejects, RunsOut, ClosePayload;
    CodesInOctets();
    if r.Closed? && r.cr.code != NONE {
      CodeBack(r.cr);
    }
    if r.Failure? && CloseFirst(f, d, st, cfg) {
      NotTooBig(d, f, st, cfg);
    }
  }

  lemma ReplyClosesWith(r: Result, f: Frame, fs: seq<Frame>, d0: seq<u8>, held: seq<u8>, st0: State, cfg: Config)
    requires EndsAfter(r, f, fs, d0, held, st0, cfg) && (r.BadPayload? || r.Failure? || r.Closed?)
    ensures ClosesWith(ClosePayload(CloseReason(ReplyCode(r), [])), r, f, fs, d0, st0, cfg)
  {
    hide Wire, WireAll, Accepted, After, DataOf, TextSoFar, Ends, CloseOctets, ClosePayload, Utf8Automaton.Completable;
    var st := After(Headers(fs), st0);
    ReplyOctets(r, f, d0[|WireAll(fs)|..], TextSoFar(held, DataOf(fs), st), st, cfg);
  }

  /** read(): a message is delivered, or the connection ends, with a close frame unless one has
      been sent before, or the stream runs out.

      Which of these it is depends only on what the stream holds behind the frames fs, all of them
      accepted and none the last one of a message; and every ping among fs is answered with a pong
      that carries its data, in order, and nothing else is written.  What is delivered is the
      payload of the frames that make up a message of the stream, and a text only if it is UTF-8.

      And if the stream starts with a message, cut into any frames and with any pings and pongs in
      between, then it is delivered exactly when it is not text or its payload is UTF-8, where what
      the checker held before counts as part of it. */
  method ReadMessage(s: Stream, db: Streambuf, ghost sent: seq<Frame>, ghost more: seq<u8>)
    returns (r: Result, payload: seq<u8>, wrote: seq<u8>,
             ghost fs: seq<Frame>, ghost f: Frame, ghost pongs: seq<Frame>, ghost closing: seq<Frame>)
    requires s.Valid() && s.base.Valid() && db.Valid() && s.base.rdNeed == 0
    modifies s.base`rdFh, s.base`rdKey, s.base`rdSize, s.base`rdOpcode, s.base`rdNeed, s.base`rdCont, s.check,
             s`wrClose, db`inp
    ensures s.Valid() && s.base.Valid() && db.Valid()
    ensures EndsAfter(r, f, fs, old(db.Data()), old(s.check.Text()), old(s.base.St()), s.base.Cfg())
    ensures forall i :: 0 <= i < |pongs| ==> pongs[i].h.Valid()
    ensures forall i :: 0 <= i < |closing| ==> closing[i].h.Valid()
    ensures wrote == WireAll(pongs) + WireAll(closing) && Answered(pongs, fs, s.base.role)
    ensures s.wrClose == (old(s.wrClose) || r.BadPayload? || r.Failure? || r.Closed?)
    ensures if old(s.wrClose) || r.Message? || r.EndOfStream? then closing == []
            else && |closing| == 1
                 && ControlBy(closing[0], CLOSE, ClosePayload(CloseReason(ReplyCode(r), [])), s.base.role)
                 && ClosesWith(closing[0].payload, r, f, fs, old(db.Data()), old(s.base.St()), s.base.Cfg())
    ensures r.Message? ==>
      && Delivers(r.op, payload, fs + [f], old(db.Data()), db.Data(),
                  old(s.check.Text()), old(s.base.St()), s.base.Cfg())
      && s.base.St() == After(Headers(fs + [f]), old(s.base.St())) && s.base.rdNeed == 0
      && s.check.Text() == if r.op == TEXT then [] else old(s.check.Text())
    ensures Sent(sent, more, old(db.Data()), old(s.base.St()), s.base.Cfg()) ==>
      var op := After(Headers(sent), old(s.base.St())).op;
      if op == TEXT && !Utf8Octets(old(s.check.Text()) + DataOf(sent)) then r == BadPayload
      else r == Message(op) && payload == DataOf(sent) && fs + [f] == sent && db.Data() == more
  {
    hide Sent, WireAll, After, DataOf, Answered, SentBy, EndsAfter, Delivers, ClosesWith;
    hide Streambuf.Data, Checker.Text, Checker.Valid, Utf8Octets, ClosePayload;
    r, payload, wrote, fs, f, pongs := TakeMessage(s, db, sent, more);
    closing := [];
    NothingToAnswer(s.base.role);
    assert wrote + [] == wrote;
    if r.BadPayload? || r.Failure? || r.Closed? {
      ReplyCodeFits(r, f, fs, old(db.Data()), old(s.check.Text()), old(s.base.St()), s.base.Cfg());
      ReplyClosesWith(r, f, fs, old(db.Data()), old(s.check.Text()), old(s.base.St()), s.base.Cfg());
      var octets;
      octets, closing := SendClose(s, CloseReason(ReplyCode(r), []));
      wrote := wrote + octets;
    }
  }

  lemma ReplyCodeFits(r: Result, f: Frame, fs: seq<Frame>, d0: seq<u8>, held: seq<u8>, st0: State, cfg: Config)
    requires EndsAfter(r, f, fs, d0, held, st0, cfg)
    ensures CloseReason(ReplyCode(r), []).Valid()
  {
    hide Wire, WireAll, Sendable, After, DataOf, TextSoFar, Admissible, BadFrame, Hopeless, ClosePayload;
  }

  lemma NothingSoFar(held: seq<u8>, st: State)
    ensures TextSoFar(held, [], st) == held && DataOf([]) == []
  {
    assert held + [] == held;
  }

  // ---- The checker that open() does not clear ----

  /** The next connection on a stream, from open() to the first message: what the checker was left
      with counts as the beginning of its text.  It makes no difference if it was whole characters. */
  method FirstMessage(s: Stream, role: Role, db: Streambuf, ghost sent: seq<Frame>, ghost more: seq<u8>)
    returns (r: Result, payload: seq<u8>)
    requires s.Valid() && s.base.Valid() && db.Valid()
    modifies s.base, s.check, s`wrClose, db`inp
    ensures Sent(sent, more, old(db.Data()), State(false, old(s.base.rdSize), old(s.base.rdOpcode)),
                 Config(role, old(s.base.rdMsgMax))) ==>
      var op := After(Headers(sent), State(false, old(s.base.rdSize), old(s.base.rdOpcode))).op;
      if op == TEXT && !Utf8Octets(old(s.check.Text()) + DataOf(sent)) then r == BadPayload
      else r == Message(op) && payload == DataOf(sent)
    ensures Utf8Octets(old(s.check.Text())) &&
            Sent(sent, more, old(db.Data()), State(false, old(s.base.rdSize), old(s.base.rdOpcode)),
                 Config(role, old(s.base.rdMsgMax))) ==>
      var op := After(Headers(sent), State(false, old(s.base.rdSize), old(s.base.rdOpcode))).op;
      r == BadPayload <==> op == TEXT && !Utf8Octets(DataOf(sent))
  {
    hide Sent, After, Utf8Octets, DataOf, Sendable, MessageFrames, WireAll, Streambuf.Data, Checker.Text, Checker.Valid;
    ghost var st0 := State(false, s.base.rdSize, s.base.rdOpcode);
    s.Open(role);
    assert s.base.St() == st0 && s.base.Cfg() == Config(role, old(s.base.rdMsgMax));
    assert db.Data() == old(db.Data()) && s.check.Text() == old(s.check.Text());
    var wrote;
    ghost var fs, f, pongs, closing;
    r, payload, wrote, fs, f, pongs, closing := ReadMessage(s, db, sent, more);
    LeftoverHarmless(old(s.check.Text()));
  }

  /** The only frame of a text of one octet, or the first of several, as a server sends it. */
  function TextFrame(fin: bool, c: u8): Frame {
    Frame(Header(TEXT, fin, false, false, false, false, 1, 0), [c])
  }

  lemma TextFrameFits(fin: bool, c: u8, st: State, max: nat)
    requires !st.cont && (max == 0 || max >= 1)
    ensures var f, cfg := TextFrame(fin, c), Config(Client, max);
      && f.Valid() && Admissible(f.h, st, cfg) && Next(f.h, st) == State(!fin, 1, TEXT)
      && f.h.Valid() && |Wire(f)| <= 15
      && Sendable([f], st, cfg) && After(Headers([f]), st) == State(!fin, 1, TEXT)
      && WireAll([f]) + [] == Wire(f) && DataOf([f]) == [c] && (fin ==> MessageFrames([f]))
  {
    var f, cfg := TextFrame(fin, c), Config(Client, max);
    assert Admissible(f.h, st, cfg);
    hide Wire, Admissible, Accepted;
    SendableNone(st, cfg);
    SendableAppend([], f, st, cfg);
    assert [] + [f] == [f] && [f][1..] == [];
    WireAllAppend([], f);
    WireSize(f);
    DataOfOne(f);
  }

  lemma WireSize(f: Frame)
    requires f.h.Valid()
    ensures |Wire(f)| <= 14 + |f.payload| && WireAll([]) == [] && [] + Wire(f) + [] == Wire(f)
  {
    hide Print, Covered;
  }

  method TextOnTheWire(fin: bool, c: u8) returns (db: Streambuf)
    ensures fresh(db) && fresh(db.mem) && db.Valid() && db.Data() == Wire(TextFrame(fin, c))
  {
    hide Print;
    db := new Streambuf(15);
    var f := TextFrame(fin, c);
    var ok := WriteHeader(db, f.h);
    ok := db.Put(f.payload);
    assert [] + Print(f.h) == Print(f.h);
  }

  /** A connection that ends after the first octet of a two-octet character spoils a text on the
      next one that is UTF-8. */
  method Spoilt() returns (r: Result)
    ensures r == BadPayload && Utf8Octets([0x61])
  {
    hide Wire, WireAll, Sendable, Admissible, Next, After, Hopeless, MessageFrames, DataOf, TextBad, TextFrame;
    hide Frame.Valid;
    hide Streambuf.Data, Checker.Text, Checker.Valid, Utf8Octets, Fits;
    var s := new Stream();
    s.Open(Client);
    ghost var f := TextFrame(false, 0xC2);
    TextFrameFits(false, 0xC2, s.base.St(), s.base.rdMsgMax);
    var db := TextOnTheWire(false, 0xC2);
    NotHopeless(db.Data(), f, s.base.St(), s.base.Cfg());
    ghost var d := db.Data();
    var o, bad, p;
    ghost var g;
    o, bad, p, g := NextFrame(s, db);
    WholeIsFront(f, d);
    OneFront(d, f, g);
    HalfCharacter();
    TextLeft(f);
    TextFrameFits(true, 0x61, State(false, s.base.rdSize, s.base.rdOpcode), s.base.rdMsgMax);
    var db2 := TextOnTheWire(true, 0x61);
    var payload;
    r, payload := FirstMessage(s, Client, db2, [TextFrame(true, 0x61)], []);
  }

  lemma HalfCharacter()
    ensures !TextBad([] + [0xC2], false) && !Utf8Octets([0xC2] + [0x61]) && Utf8Octets([0x61])
  {
    LeftoverExists();
    var half: seq<u8> := [0xC2];
    assert [] + half == half;
    hide Utf8Automaton.Completable;
    var s: seq<u8> := [0xC2, 0x61];
    assert [0xC2] + [0x61] == s;
    assert s[..1][0] == 0xC2 && s[..2] == s;
    var a: seq<u8> := [0x61];
    assert Utf8Char(a) && a[..1] == a && a[1..] == [] && Utf8Octets(a[1..]);
  }

  lemma TextLeft(f: Frame)
    requires f == TextFrame(false, 0xC2)
    ensures TextAfter([], f, State(true, 1, TEXT)) == [0xC2]
    ensures BadFrame([], f, State(true, 1, TEXT)) <==> TextBad([] + [0xC2], false)
  {
    hide TextBad;
    assert [] + [0xC2] == [0xC2];
  }
}
