/** A message from end to end: written by write_frame() on one side, read by read() on the other. */
module Delivery {
  import opened Bytes
  import opened FrameHeader
  import opened Protocol
  import opened StaticStreambuf
  import opened Receive
  import opened Utf8Checker
  import opened WholeMessages
  import opened MessageReader
  import opened Fragmenting
  import opened MessageWriter

  /** A message to be written: its type and the options in force, which set_option() can change
      between messages, and the buffer of each call. */
  datatype Letter = Letter(op: opcode, opt: Options, datas: seq<seq<u8>>) {
    ghost predicate Valid() {
      && op in {TEXT, BINARY} && 0 < opt.max < TWO_64
      && datas != [] && forall i :: 0 <= i < |datas| ==> |datas[i]| < TWO_64
    }

    /** What the reader is to get. */
    function Said(): (opcode, seq<u8>) { (op, Concat(datas)) }
  }

  /** Auto fragmentation loses nothing of it. */
  ghost predicate Kept(m: Letter)
    requires m.Valid()
  {
    !m.opt.auto || FirstFills(m.datas, m.opt.max)
  }

  /** Frames that this role sends for the message. */
  ghost predicate Carries(sent: seq<Frame>, m: Letter, role: Role) {
    && m.Valid() && AllValid(sent)
    && (forall i :: 0 <= i < |sent| ==> SentBy(sent[i], role))
    && WellEnded(PiecesOf(sent), m.op)
    && (Faithful(PiecesOf(sent), m.op, m.datas) <==> Kept(m))
  }

  lemma PiecesFront(w: Pending, opt: Options, op: opcode, datas: seq<seq<u8>>, i: nat)
    requires w.max > 0 && opt.max > 0 && i < |datas|
    ensures var fin := i == |datas| - 1;
      MessagePieces(w, opt, op, datas[i..]) ==
      CallPieces(w, opt, op, fin, datas[i]) +
      MessagePieces(CallAfter(w, opt, fin, datas[i]), opt, op, datas[i + 1..])
  {
    assert datas[i..][1..] == datas[i + 1..];
  }

  /** One call of write_frame() for each buffer, the last with fin. */
  method WriteBuffers(s: Sender, datas: seq<seq<u8>>) returns (ghost sent: seq<Frame>)
    requires s.Valid() && !s.cont && datas != [] && forall i :: 0 <= i < |datas| ==> |datas[i]| < TWO_64
    modifies s`wire, s`frames, s`cont, s`autofrag, s`size, s`max, s`buf, s.buf
    ensures s.Valid() && !s.cont && s.frames == old(s.frames) + sent
    ensures s.buf == null || s.buf == old(s.buf) || fresh(s.buf)
    ensures PiecesOf(sent) == MessagePieces(old(s.Wr()), s.Opt(), s.wrOpcode, datas)
  {
    hide CallPieces, CallAfter, PiecesOf, SentBy, WireAll;
    ghost var w0, opt, op := s.Wr(), s.Opt(), s.wrOpcode;
    sent := [];
    NothingSent(s.frames, MessagePieces(w0, opt, op, datas));
    assert datas[0..] == datas;
    for i := 0 to |datas|
      invariant s.Valid() && s.frames == old(s.frames) + sent && (i == |datas| ==> !s.cont)
      invariant s.buf == null || s.buf == old(s.buf) || fresh(s.buf)
      invariant PiecesOf(sent) + MessagePieces(s.Wr(), opt, op, datas[i..]) == MessagePieces(w0, opt, op, datas)
    {
      PiecesFront(s.Wr(), opt, op, datas, i);
      CallEnds(s.Wr(), opt, op, i == |datas| - 1, datas[i]);
      ghost var more := s.WriteFrame(i == |datas| - 1, datas[i]);
      MoreSent(old(s.frames), sent, more, MessagePieces(s.Wr(), opt, op, datas[i + 1..]));
      sent := sent + more;
    }
    assert PiecesOf(sent) + [] == PiecesOf(sent);
  }

  lemma CallEnds(w: Pending, opt: Options, op: opcode, fin: bool, data: seq<u8>)
    requires w.max > 0 && opt.max > 0 && (w.cont && !w.auto ==> w.held == [])
    ensures fin ==> !CallAfter(w, opt, fin, data).cont
  {
    hide Payload, Fragments, CallPieces, CallAfter;
    CallKeepsOctets(w, opt, op, fin, data);
  }

  lemma MoreSent(was: seq<Frame>, sent: seq<Frame>, more: seq<Frame>, rest: seq<Piece>)
    ensures PiecesOf(sent + more) + rest == PiecesOf(sent) + (PiecesOf(more) + rest)
    ensures (was + sent) + more == was + (sent + more)
  {
    hide PiecesOf;
    PiecesOfAppend(sent, more);
    Assoc(PiecesOf(sent), PiecesOf(more), rest);
    Assoc(was, sent, more);
  }

  lemma NothingSent(was: seq<Frame>, ps: seq<Piece>)
    ensures PiecesOf([]) + ps == ps && was + [] == was
  {
  }

  /** The options are set, and the message is written. */
  method WriteMessage(s: Sender, m: Letter) returns (ghost sent: seq<Frame>)
    requires s.Valid() && !s.cont && m.Valid()
    modifies s, s.buf
    ensures s.Valid() && !s.cont && s.frames == old(s.frames) + sent
    ensures s.buf == null || s.buf == old(s.buf) || fresh(s.buf)
    ensures Carries(sent, m, s.role) && s.wire == old(s.wire) + WireAll(sent)
  {
    hide MessagePieces, PiecesOf, SentBy, WireAll, Faithful, FirstFills, WellEnded;
    s.wrOpcode, s.wrAutofrag, s.wrBufSize := m.op, m.opt.auto, m.opt.max;
    ghost var w0 := s.Wr();
    sent := WriteBuffers(s, m.datas);
    FaithfulIff(w0, m.opt, m.op, m.datas);
    MessageEnds(w0, m.opt, m.op, m.datas);
    SentSuffix(old(s.frames), sent, s.role);
    WireAllConcat(old(s.frames), sent);
  }

  lemma CarriesValid(sent: seq<Frame>, m: Letter, role: Role)
    requires Carries(sent, m, role)
    ensures AllValid(sent)
  {
  }

  lemma SentSuffix(was: seq<Frame>, sent: seq<Frame>, role: Role)
    requires forall i :: 0 <= i < |was + sent| ==> SentBy((was + sent)[i], role)
    ensures (forall i :: 0 <= i < |sent| ==> SentBy(sent[i], role)) && AllValid(sent)
    ensures forall i :: 0 <= i < |sent| ==> sent[i].h.Valid()
    ensures forall i :: 0 <= i < |was| ==> was[i].h.Valid()
  {
    forall i | 0 <= i < |was| ensures was[i].h.Valid() {
      assert (was + sent)[i] == was[i];
    }
    forall i | 0 <= i < |sent| ensures SentBy(sent[i], role) && sent[i].Valid() {
      assert (was + sent)[|was| + i] == sent[i];
    }
  }

  // ---- What the peer makes of it ----

  lemma FragmentsFront(ps: seq<Piece>, op: opcode)
    requires ps != [] && Fragments(ps, op, true)
    ensures ps[0].op == op && (ps[0].fin <==> |ps| == 1) && Fragments(ps[1..], CONT, true)
  {
    forall i | 0 <= i < |ps[1..]|
      ensures ps[1..][i].op == CONT && (ps[1..][i].fin <==> i == |ps[1..]| - 1)
    {
      assert ps[1..][i] == ps[i + 1];
    }
  }

  /** A data frame that the peer expects is admissible exactly when the message still fits. */
  lemma FrameAdmissible(f: Frame, role: Role, st: State, cfg: Config)
    requires SentBy(f, role) && cfg.role == Peer(role)
    requires f.h.op in {CONT, TEXT, BINARY} && (f.h.op == CONT <==> st.cont)
    ensures Admissible(f.h, st, cfg) <==> Fits((if st.cont then st.size else 0) + |f.payload|, cfg.max)
    ensures var next := Next(f.h, st);
      next.cont == !f.h.fin && next.size == (if st.cont then st.size else 0) + |f.payload|
  {
    hide Fits;
  }

  /** The frames of a message are an accepted run for the peer that expects them exactly when the
      message fits its limit. */
  lemma {:induction false} FragmentsAccepted(fs: seq<Frame>, role: Role, op: opcode, st: State, cfg: Config)
    requires (forall i :: 0 <= i < |fs| ==> SentBy(fs[i], role)) && cfg.role == Peer(role)
    requires fs != [] && Fragments(PiecesOf(fs), op, true)
    requires op in {CONT, TEXT, BINARY} && (op == CONT <==> st.cont)
    ensures Sendable(fs, st, cfg) <==>
            Fits((if st.cont then st.size else 0) + |Payload(PiecesOf(fs))|, cfg.max)
    ensures !After(Headers(fs), st).cont
    decreases |fs|
  {
    hide Accepted, After, Fits, Sendable, Admissible, Next, Fragments;
    var f, ps := fs[0], PiecesOf(fs);
    FragmentsFront(ps, op);
    assert ps[1..] == PiecesOf(fs[1..]);
    FrameAdmissible(f, role, st, cfg);
    hide SentBy;
    FrameValid(f, role);
    SendableParts(fs, st, cfg);
    if |fs| == 1 {
      SendableNone(Next(f.h, st), cfg);
      assert fs[1..] == [] && Payload(ps[1..]) == [];
    } else {
      FragmentsAccepted(fs[1..], role, CONT, Next(f.h, st), cfg);
      FitsLess((if st.cont then st.size else 0) + |f.payload|,
               (if st.cont then st.size else 0) + |Payload(ps)|, cfg.max);
    }
  }

  lemma FrameValid(f: Frame, role: Role)
    requires SentBy(f, role)
    ensures f.Valid()
  {
  }

  lemma FitsLess(m: nat, n: nat, max: nat)
    ensures m <= n && Fits(n, max) ==> Fits(m, max)
  {
  }

  lemma {:induction false} DataIsPayload(fs: seq<Frame>)
    requires forall i :: 0 <= i < |fs| ==> !IsControl(fs[i].h.op)
    ensures DataOf(fs) == Payload(PiecesOf(fs))
    decreases |fs|
  {
    if fs != [] {
      DataIsPayload(fs[1..]);
      assert PiecesOf(fs)[1..] == PiecesOf(fs[1..]);
    }
  }

  /** The frames of a message, faithful or not, look like those of one message. */
  lemma CarriedFrames(sent: seq<Frame>, m: Letter, role: Role)
    requires Carries(sent, m, role)
    ensures sent != [] && MessageFrames(sent) && DataOf(sent) == Payload(PiecesOf(sent))
    ensures forall i :: 0 <= i < |sent| ==> !IsControl(sent[i].h.op) && PiecesOf(sent)[i] == PieceOf(sent[i])
  {
    hide Faithful, FirstFills, SentBy, DataOf, Payload;
    forall i | 0 <= i < |sent|
      ensures !IsControl(sent[i].h.op) && (sent[i].h.fin <==> i == |sent| - 1)
    {
      assert PiecesOf(sent)[i] == PieceOf(sent[i]);
    }
    DataIsPayload(sent);
  }

  lemma EndedTail(fs: seq<Frame>, op: opcode)
    requires |fs| > 1 && WellEnded(PiecesOf(fs), op)
    ensures WellEnded(PiecesOf(fs[1..]), op) && !fs[0].h.fin && fs[0].h.op in {op, CONT}
  {
    var ps := PiecesOf(fs);
    assert ps[0] == PieceOf(fs[0]);
    forall i | 0 <= i < |fs| - 1
      ensures PiecesOf(fs[1..])[i].op in {op, CONT} && (PiecesOf(fs[1..])[i].fin <==> i == |fs| - 2)
    {
      assert PiecesOf(fs[1..])[i] == ps[i + 1];
    }
  }

  lemma ExpectedOp(h: Header, op: opcode, st: State, cfg: Config)
    requires Admissible(h, st, cfg) && h.op in {op, CONT} && op in {TEXT, BINARY}
    ensures h.op == (if st.cont then CONT else op) && Next(h, st).cont == !h.fin
    ensures Next(h, st).op == if st.cont then st.op else op
  {
  }

  /** If they are accepted then they are one message: the opcode first, then continuations. */
  lemma {:induction false} AcceptedMessage(fs: seq<Frame>, op: opcode, st: State, cfg: Config)
    requires WellEnded(PiecesOf(fs), op) && op in {TEXT, BINARY} && Sendable(fs, st, cfg)
    ensures Fragments(PiecesOf(fs), if st.cont then CONT else op, true)
    ensures After(Headers(fs), st).op == if st.cont then st.op else op
    decreases |fs|
  {
    hide Accepted, After, Admissible, Next, Sendable;
    var ps := PiecesOf(fs);
    assert ps[0] == PieceOf(fs[0]);
    SendableFront(fs, st, cfg);
    SendableParts(fs, st, cfg);
    ExpectedOp(fs[0].h, op, st, cfg);
    if |fs| == 1 {
      assert fs[1..] == [];
      SendableNone(Next(fs[0].h, st), cfg);
    } else {
      EndedTail(fs, op);
      AcceptedMessage(fs[1..], op, Next(fs[0].h, st), cfg);
      assert ps[1..] == PiecesOf(fs[1..]);
      assert forall i :: 1 <= i < |ps| ==> ps[i] == ps[1..][i - 1];
    }
  }

  lemma FaithfulAccepted(fs: seq<Frame>, role: Role, op: opcode, datas: seq<seq<u8>>, st: State, cfg: Config)
    requires (forall i :: 0 <= i < |fs| ==> SentBy(fs[i], role)) && cfg.role == Peer(role)
    requires Faithful(PiecesOf(fs), op, datas) && op in {TEXT, BINARY} && !st.cont
    ensures Sendable(fs, st, cfg) <==> Fits(|Concat(datas)|, cfg.max)
    ensures !After(Headers(fs), st).cont
  {
    hide SentBy, Sendable, Fits, After;
    assert PiecesOf(fs) != [];
    FragmentsAccepted(fs, role, op, st, cfg);
  }

  /** The message reaches the application as it was written: it fits the peer's limit, auto
      fragmentation loses nothing of it, and a text is UTF-8, with what the peer's checker held. */
  ghost predicate Arrives(m: Letter, held: seq<u8>, max: nat)
    requires m.Valid()
  {
    && Fits(|Concat(m.datas)|, max) && Kept(m)
    && (m.op == TEXT ==> Utf8Spec.Utf8Octets(held + Concat(m.datas)))
  }

  lemma ArrivesIf(sent: seq<Frame>, m: Letter, role: Role, held: seq<u8>, st: State, cfg: Config)
    requires Carries(sent, m, role) && !st.cont && cfg.role == Peer(role) && Arrives(m, held, cfg.max)
    ensures Sendable(sent, st, cfg) && MessageFrames(sent) && DataOf(sent) == Concat(m.datas)
    ensures After(Headers(sent), st).op == m.op && !After(Headers(sent), st).cont
  {
    hide SentBy, Sendable, Fits, After, MessageFrames, DataOf, PiecesOf, FirstFills, WellEnded, Utf8Spec.Utf8Octets;
    CarriedFrames(sent, m, role);
    FaithfulAccepted(sent, role, m.op, m.datas, st, cfg);
    AcceptedMessage(sent, m.op, st, cfg);
  }

  /** Nothing else can be read as the message that was written. */
  lemma ArrivesOnlyIf(sent: seq<Frame>, m: Letter, role: Role, held: seq<u8>, st: State, cfg: Config,
                      more: seq<u8>, payload: seq<u8>, whole: seq<Frame>, d: seq<u8>)
    requires Carries(sent, m, role) && !st.cont && cfg.role == Peer(role)
    requires Delivers(m.op, payload, whole, WireAll(sent) + more, d, held, st, cfg) && payload == Concat(m.datas)
    ensures Arrives(m, held, cfg.max) && whole == sent && d == more
  {
    hide SentBy, Sendable, Fits, After, MessageFrames, DataOf, PiecesOf, FirstFills, WellEnded, WireAll;
    hide Utf8Spec.Utf8Octets;
    CarriedFrames(sent, m, role);
    SendableValid(whole, st, cfg);
    OneMessageFirst(whole, sent, d, more);
    AcceptedMessage(sent, m.op, st, cfg);
    FragmentsFaithful(PiecesOf(sent), m.op, m.datas);
    FaithfulAccepted(sent, role, m.op, m.datas, st, cfg);
  }

  lemma SendableValid(fs: seq<Frame>, st: State, cfg: Config)
    requires Sendable(fs, st, cfg)
    ensures AllValid(fs)
  {
  }

  lemma FragmentsFaithful(ps: seq<Piece>, op: opcode, datas: seq<seq<u8>>)
    requires ps != [] && Fragments(ps, op, true) && Payload(ps) == Concat(datas)
    ensures Faithful(ps, op, datas)
  {
  }

  /** read() on a stream that starts with what was sent for m; nothing is said unless known. */
  method ReadNext(r: TextMessages.Stream, db: Streambuf, ghost known: bool, ghost m: Letter, ghost sent: seq<Frame>,
                  ghost more: seq<u8>, ghost role: Role) returns (res: Result, payload: seq<u8>)
    requires r.Valid() && r.base.Valid() && db.Valid() && r.base.rdNeed == 0
    requires known ==>
      && m.Valid() && Carries(sent, m, role) && db.Data() == WireAll(sent) + more
      && !r.base.rdCont && r.base.role == Peer(role)
    modifies r.base, r.check, r`wrClose, db`inp
    ensures r.Valid() && r.base.Valid() && db.Valid() && (res.Message? ==> r.base.rdNeed == 0)
    ensures r.base.role == old(r.base.role) && r.base.rdMsgMax == old(r.base.rdMsgMax)
    ensures known ==>
      (res == Result.Message(m.op) && payload == Concat(m.datas) <==> Arrives(m, old(r.check.Text()), r.base.rdMsgMax))
    ensures known && Arrives(m, old(r.check.Text()), r.base.rdMsgMax) ==>
      && db.Data() == more && !r.base.rdCont
      && r.check.Text() == if m.op == TEXT then [] else old(r.check.Text())
  {
    hide Carries, Arrives, Delivers, SentBy, WireAll, Sendable, MessageFrames, After, DataOf, Utf8Spec.Utf8Octets;
    hide Streambuf.Data, Checker.Text, Checker.Valid, EndsAfter;
    ghost var st, cfg, held, d0 := r.base.St(), r.base.Cfg(), r.check.Text(), db.Data();
    var wrote;
    ghost var fs, f, pongs, closing;
    res, payload, wrote, fs, f, pongs, closing := ReadMessage(r, db, sent, more);
    if known {
      if Arrives(m, held, cfg.max) {
        ArrivesIf(sent, m, role, held, st, cfg);
        TextArrives(m, held, cfg.max);
      }
      if res == Result.Message(m.op) && payload == Concat(m.datas) {
        ArrivesOnlyIf(sent, m, role, held, st, cfg, more, payload, fs + [f], db.Data());
      }
    }
  }

  lemma TextArrives(m: Letter, held: seq<u8>, max: nat)
    requires m.Valid() && Arrives(m, held, max)
    ensures m.op == TEXT ==> Utf8Spec.Utf8Octets(held + Concat(m.datas))
  {
  }

  /** From end to end: a message written by any number of calls, in either role, with any mask
      keys and buffer sizes, comes out of the peer's read() as it was written, with its type,
      exactly when it fits the peer's limit, auto fragmentation loses nothing of it and a text is
      UTF-8. */
  method Deliver(s: Sender, r: TextMessages.Stream, m: Letter) returns (res: Result, payload: seq<u8>)
    requires s.Valid() && !s.cont && m.Valid()
    requires r.Valid() && r.base.Valid() && r.base.rdNeed == 0 && !r.base.rdCont && r.base.role == Peer(s.role)
    modifies s, s.buf, r, r.base, r.check
    ensures s.Valid() && !s.cont && r.Valid() && r.base.Valid()
    ensures res == Result.Message(m.op) && payload == Concat(m.datas) <==>
            Arrives(m, old(r.check.Text()), r.base.rdMsgMax)
  {
    hide Carries, Arrives, WireAll, Streambuf.Data, Checker.Text, Checker.Valid, SentBy;
    var start := |s.wire|;
    ghost var sent := WriteMessage(s, m);
    var db := OnTheWire(s.wire[start..]);
    CarriesValid(sent, m, s.role);
    assert WireAll(sent) + [] == WireAll(sent);
    res, payload := ReadNext(r, db, true, m, sent, [], s.role);
  }
}
