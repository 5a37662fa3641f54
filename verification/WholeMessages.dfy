/** The frames that make up a message on the wire, and how far reading has got with them. */
module WholeMessages {
  import opened Bytes
  import opened FrameHeader
  import opened Protocol
  import opened Receive

  function DataIn(f: Frame): seq<u8> { if IsControl(f.h.op) then [] else f.payload }

  /** The payloads of the data frames. */
  function DataOf(fs: seq<Frame>): seq<u8> {
    if fs == [] then [] else DataIn(fs[0]) + DataOf(fs[1..])
  }

  lemma DataOfFront(f: Frame, fs: seq<Frame>)
    ensures DataOf([f] + fs) == DataIn(f) + DataOf(fs)
  {
    hide DataIn;
    assert ([f] + fs)[1..] == fs;
  }

  lemma {:induction false} DataOfAppend(fs: seq<Frame>, gs: seq<Frame>)
    ensures DataOf(fs + gs) == DataOf(fs) + DataOf(gs)
    decreases |fs|
  {
    hide DataIn;
    if fs == [] {
      assert fs + gs == gs;
    } else {
      DataOfAppend(fs[1..], gs);
      assert fs + gs == [fs[0]] + (fs[1..] + gs);
      hide DataOf;
      DataOfFront(fs[0], fs[1..] + gs);
      DataOfParts(fs);
      Assoc(DataIn(fs[0]), DataOf(fs[1..]), DataOf(gs));
    }
  }

  lemma DataOfParts(fs: seq<Frame>)
    requires fs != []
    ensures DataOf(fs) == DataIn(fs[0]) + DataOf(fs[1..])
  {
    hide DataIn;
  }

  lemma DataOfOne(f: Frame)
    ensures DataOf([f]) == DataIn(f)
  {
    hide DataIn;
    assert [f][1..] == [];
  }

  /** A frame in the middle of a message: data to be continued, a ping or a pong. */
  predicate Middle(f: Frame) {
    if IsControl(f.h.op) then f.h.op != CLOSE else !f.h.fin
  }

  /** The end of a message. */
  predicate Final(f: Frame) { !IsControl(f.h.op) && f.h.fin }

  /** The frames of one message, with pings and pongs in between. */
  ghost predicate MessageFrames(fs: seq<Frame>) {
    && fs != [] && Final(fs[|fs| - 1])
    && forall i :: 0 <= i < |fs| - 1 ==> Middle(fs[i])
  }

  lemma NotBoth(f: Frame)
    ensures !(Middle(f) && Final(f))
  {
  }

  lemma SameRest<T>(a: seq<T>, x: seq<T>, y: seq<T>)
    requires a + x == a + y
    ensures x == y
  {
    assert (a + x)[|a|..] == x && (a + y)[|a|..] == y;
  }

  /** The frames of a message without the first one. */
  lemma MessageTail(fs: seq<Frame>)
    requires MessageFrames(fs) && AllValid(fs)
    ensures if |fs| == 1 then Final(fs[0]) && fs[1..] == [] else Middle(fs[0]) && MessageFrames(fs[1..])
    ensures AllValid(fs[1..]) && WireAll(fs) == Wire(fs[0]) + WireAll(fs[1..])
  {
    hide Wire, Middle, Final, Frame.Valid;
    forall i | 0 <= i < |fs[1..]| ensures fs[1..][i] == fs[i + 1] {
    }
  }

  /** A stream starts with the frames of one message only. */
  lemma {:induction false} OneMessageFirst(fs: seq<Frame>, gs: seq<Frame>, x: seq<u8>, y: seq<u8>)
    requires AllValid(fs) && AllValid(gs) && MessageFrames(fs) && MessageFrames(gs)
    requires WireAll(fs) + x == WireAll(gs) + y
    ensures fs == gs && x == y
    decreases |fs|
  {
    hide Wire, WireAll, Middle, Final;
    var f, g, d := fs[0], gs[0], WireAll(fs) + x;
    MessageTail(fs);
    MessageTail(gs);
    Assoc(Wire(f), WireAll(fs[1..]), x);
    Assoc(Wire(g), WireAll(gs[1..]), y);
    OneFrame(d, f, g);
    NotBoth(f);
    SameRest(Wire(f), WireAll(fs[1..]) + x, WireAll(gs[1..]) + y);
    assert fs == [f] + fs[1..] && gs == [g] + gs[1..];
    if |fs| == 1 {
      NoFrames();
      assert [] + x == x && [] + y == y;
    } else {
      OneMessageFirst(fs[1..], gs[1..], x, y);
    }
  }

  /** The stream d0 starts with the frames of a message that the receiver accepts. */
  ghost predicate Sent(sent: seq<Frame>, more: seq<u8>, d0: seq<u8>, st0: State, cfg: Config) {
    Sendable(sent, st0, cfg) && MessageFrames(sent) && d0 == WireAll(sent) + more
  }

  /** How reading a message stands: fs has been read, d is left, and if a message was sent, then
      left is what is to come of it. */
  ghost predicate Going(fs: seq<Frame>, left: seq<Frame>, d: seq<u8>, st: State,
                        sent: seq<Frame>, more: seq<u8>, d0: seq<u8>, st0: State, cfg: Config)
  {
    && Sendable(fs, st0, cfg) && st == After(Headers(fs), st0)
    && d0 == WireAll(fs) + d
    && (forall i :: 0 <= i < |fs| ==> Middle(fs[i]))
    && (Sent(sent, more, d0, st0, cfg) ==>
          && left != [] && fs + left == sent && Sendable(left, st, cfg) && d == WireAll(left) + more
          && After(Headers(left), st) == After(Headers(sent), st0))
  }

  lemma GoingStart(sent: seq<Frame>, more: seq<u8>, d0: seq<u8>, st0: State, cfg: Config)
    ensures Going([], sent, d0, st0, sent, more, d0, st0, cfg)
  {
    hide Wire, Admissible;
    SendableNone(st0, cfg);
    assert [] + sent == sent;
    assert WireAll([]) == [] && [] + d0 == d0;
  }

  /** The first frame of what is left. */
  lemma LeftFront(left: seq<Frame>, more: seq<u8>, st: State, cfg: Config)
    requires left != [] && Sendable(left, st, cfg)
    ensures left[0].Valid() && Admissible(left[0].h, st, cfg)
    ensures Sendable(left[1..], Next(left[0].h, st), cfg)
    ensures WireAll(left) + more == Wire(left[0]) + (WireAll(left[1..]) + more)
    ensures Wire(left[0]) <= WireAll(left) + more
    ensures After(Headers(left), st) == After(Headers(left[1..]), Next(left[0].h, st))
  {
    hide Wire, Admissible, Next, Accepted, After;
    SendableFront(left, st, cfg);
    SendableParts(left, st, cfg);
    Assoc(Wire(left[0]), WireAll(left[1..]), more);
  }

  /** A message that was sent cannot fail to be read on, and the frame read is the one sent. */
  lemma GoingFront(fs: seq<Frame>, left: seq<Frame>, d: seq<u8>, st: State,
                   sent: seq<Frame>, more: seq<u8>, d0: seq<u8>, st0: State, cfg: Config)
    requires Going(fs, left, d, st, sent, more, d0, st0, cfg) && Sent(sent, more, d0, st0, cfg)
    ensures !Hopeless(d, st, cfg) && left != [] && left[0].Valid() && Wire(left[0]) <= d
    ensures forall f: Frame :: f.Valid() && Wire(f) <= d ==> f == left[0] && f == sent[|fs|]
    ensures if |left| == 1 then Final(left[0]) && sent == fs + [left[0]] else Middle(left[0])
  {
    hide Wire, Admissible, Hopeless, Sendable, After, WireAll;
    LeftFront(left, more, st, cfg);
    NotHopeless(d, left[0], st, cfg);
    assert sent[|fs|] == left[0];
    forall f: Frame | f.Valid() && Wire(f) <= d ensures f == left[0] {
      OneFrame(d, f, left[0]);
    }
    if |left| == 1 {
      assert left == [left[0]];
    }
  }

  /** The part of GoingStep that is about what has been read. */
  lemma GoingStepFirst(fs: seq<Frame>, left: seq<Frame>, d: seq<u8>, st: State,
                       sent: seq<Frame>, more: seq<u8>, d0: seq<u8>, st0: State, cfg: Config, f: Frame, d': seq<u8>)
    requires Going(fs, left, d, st, sent, more, d0, st0, cfg)
    requires f.Valid() && d == Wire(f) + d' && Admissible(f.h, st, cfg) && Middle(f)
    ensures Sendable(fs + [f], st0, cfg) && After(Headers(fs + [f]), st0) == Next(f.h, st)
    ensures d0 == WireAll(fs + [f]) + d' && forall i :: 0 <= i < |fs + [f]| ==> Middle((fs + [f])[i])
  {
    hide Wire, WireAll, Admissible, Next, After, Middle, Sent;
    FrameRead(fs, d, st, d0, st0, cfg, f, d');
  }

  /** The part that is about what is to come, if a message was sent. */
  lemma GoingLeft(fs: seq<Frame>, left: seq<Frame>, d: seq<u8>, st: State,
                  sent: seq<Frame>, more: seq<u8>, d0: seq<u8>, st0: State, cfg: Config, f: Frame, d': seq<u8>)
    requires Going(fs, left, d, st, sent, more, d0, st0, cfg) && Sent(sent, more, d0, st0, cfg) && left != []
    requires f.Valid() && d == Wire(f) + d' && Admissible(f.h, st, cfg) && Middle(f)
    ensures left[1..] != [] && (fs + [f]) + left[1..] == sent && Sendable(left[1..], Next(f.h, st), cfg)
    ensures d' == WireAll(left[1..]) + more
    ensures After(Headers(left[1..]), Next(f.h, st)) == After(Headers(sent), st0)
  {
    hide Wire, WireAll, Admissible, Next, Accepted, After, Middle, Final, Sent;
    GoingFront(fs, left, d, st, sent, more, d0, st0, cfg);
    NotBoth(f);
    LeftFront(left, more, st, cfg);
    assert f == left[0];
    SameRest(Wire(f), d', WireAll(left[1..]) + more);
    assert left == [f] + left[1..];
    Assoc(fs, [f], left[1..]);
  }

  lemma LeftNotEmpty(fs: seq<Frame>, left: seq<Frame>, d: seq<u8>, st: State,
                     sent: seq<Frame>, more: seq<u8>, d0: seq<u8>, st0: State, cfg: Config)
    requires Going(fs, left, d, st, sent, more, d0, st0, cfg) && Sent(sent, more, d0, st0, cfg)
    ensures left != []
  {
  }

  /** Reading goes one frame further. */
  lemma GoingStep(fs: seq<Frame>, left: seq<Frame>, d: seq<u8>, st: State,
                  sent: seq<Frame>, more: seq<u8>, d0: seq<u8>, st0: State, cfg: Config, f: Frame, d': seq<u8>)
    requires Going(fs, left, d, st, sent, more, d0, st0, cfg)
    requires f.Valid() && d == Wire(f) + d' && Admissible(f.h, st, cfg) && Middle(f)
    ensures Going(fs + [f], if left == [] then [] else left[1..], d', Next(f.h, st), sent, more, d0, st0, cfg)
  {
    hide Wire, WireAll, Sendable, Frame.Valid, Admissible, Next, After, Middle, Final, Sent;
    GoingStepFirst(fs, left, d, st, sent, more, d0, st0, cfg, f, d');
    if Sent(sent, more, d0, st0, cfg) {
      LeftNotEmpty(fs, left, d, st, sent, more, d0, st0, cfg);
      GoingLeft(fs, left, d, st, sent, more, d0, st0, cfg, f, d');
    }
  }

  lemma FrameRead(fs: seq<Frame>, d: seq<u8>, st: State, d0: seq<u8>, st0: State, cfg: Config, f: Frame, d': seq<u8>)
    requires Sendable(fs, st0, cfg) && st == After(Headers(fs), st0) && d0 == WireAll(fs) + d
    requires f.Valid() && d == Wire(f) + d' && Admissible(f.h, st, cfg)
    ensures Sendable(fs + [f], st0, cfg) && After(Headers(fs + [f]), st0) == Next(f.h, st)
    ensures d0 == WireAll(fs + [f]) + d'
  {
    hide Wire, Admissible, Next, Accepted, After;
    WireAllAppend(fs, f);
    SendableAppend(fs, f, st0, cfg);
    Assoc(WireAll(fs), Wire(f), d');
  }

  /** The end of the message has been read. */
  lemma GoingEnd(fs: seq<Frame>, left: seq<Frame>, d: seq<u8>, st: State,
                 sent: seq<Frame>, more: seq<u8>, d0: seq<u8>, st0: State, cfg: Config, f: Frame, d': seq<u8>)
    requires Going(fs, left, d, st, sent, more, d0, st0, cfg)
    requires f.Valid() && d == Wire(f) + d' && Admissible(f.h, st, cfg) && Final(f)
    ensures Sendable(fs + [f], st0, cfg) && d0 == WireAll(fs + [f]) + d' && MessageFrames(fs + [f])
    ensures After(Headers(fs + [f]), st0) == Next(f.h, st)
    ensures Sent(sent, more, d0, st0, cfg) ==> fs + [f] == sent && d' == more
  {
    hide Wire, Admissible, Next, Accepted, After, Middle, Final;
    FrameRead(fs, d, st, d0, st0, cfg, f, d');
    if Sent(sent, more, d0, st0, cfg) {
      GoingFront(fs, left, d, st, sent, more, d0, st0, cfg);
      NotBoth(f);
      LeftFront(left, more, st, cfg);
      assert left[1..] == [];
      SameRest(Wire(f), d', [] + more);
    }
  }

  /** Once a data frame has been read the opcode of the message is known. */
  lemma {:induction false} OpStays(left: seq<Frame>, st: State, cfg: Config)
    requires Sendable(left, st, cfg) && st.cont
    requires forall i :: 0 <= i < |left| - 1 ==> Middle(left[i])
    ensures After(Headers(left), st).op == st.op
    decreases |left|
  {
    if left == [] {
      SendableNone(st, cfg);
    } else {
      hide Accepted, After, Fits;
      LeftFront(left, [], st, cfg);
      var next := Next(left[0].h, st);
      if |left| == 1 {
        SendableNone(next, cfg);
        assert Headers(left[1..]) == Headers([]);
      } else {
        assert Middle(left[0]);
        forall i | 0 <= i < |left[1..]| - 1 ensures Middle(left[1..][i]) {
          assert left[1..][i] == left[i + 1];
        }
        OpStays(left[1..], next, cfg);
      }
    }
  }

  lemma GoingOp(fs: seq<Frame>, left: seq<Frame>, d: seq<u8>, st: State,
                sent: seq<Frame>, more: seq<u8>, d0: seq<u8>, st0: State, cfg: Config, f: Frame)
    requires Going(fs, left, d, st, sent, more, d0, st0, cfg) && Sent(sent, more, d0, st0, cfg)
    requires f == left[0] && !IsControl(f.h.op)
    ensures Next(f.h, st).op == After(Headers(sent), st0).op
    ensures DataOf(fs) + f.payload <= DataOf(sent)
    ensures f.h.fin ==> DataOf(sent) == DataOf(fs) + f.payload
  {
    hide Wire, Admissible, Accepted, After, WireAll, Middle;
    LeftFront(left, more, st, cfg);
    forall i | 0 <= i < |left[1..]| - 1 ensures Middle(left[1..][i]) {
      assert left[1..][i] == sent[|fs| + i + 1];
    }
    DataOfAppend(fs, left);
    assert DataOf(left) == f.payload + DataOf(left[1..]);
    Assoc(DataOf(fs), f.payload, DataOf(left[1..]));
    GoingFront(fs, left, d, st, sent, more, d0, st0, cfg);
    if f.h.fin {
      MiddleFin(f);
      assert left[1..] == [];
      SendableNone(Next(f.h, st), cfg);
      assert DataOf(fs) + f.payload + [] == DataOf(fs) + f.payload;
    } else {
      OpStays(left[1..], Next(f.h, st), cfg);
    }
  }

  lemma MiddleFin(f: Frame)
    requires !IsControl(f.h.op) && f.h.fin
    ensures !Middle(f)
  {
  }
}
