/** The outcome of read() is determined by the octets: of the results that MessageReader describes
    exactly one fits a stream. */
module ReadResults {
  import opened Bytes
  import opened FrameHeader
  import opened Protocol
  import opened Receive
  import opened ControlFrames
  import Utf8Automaton
  import opened FrameReader
  import opened WholeMessages
  import opened MessageReader

  /** Two runs of frames that a stream starts with, the first not the longer one. */
  lemma {:induction false} SamePrefix(fs: seq<Frame>, gs: seq<Frame>, d: seq<u8>)
    requires AllValid(fs) && AllValid(gs) && |fs| <= |gs|
    requires WireAll(fs) <= d && WireAll(gs) <= d
    ensures fs <= gs
    decreases |fs|
  {
    hide Wire;
    if fs != [] {
      var n := |Wire(fs[0])|;
      PrefixParts(Wire(fs[0]), WireAll(fs[1..]), d);
      PrefixParts(Wire(gs[0]), WireAll(gs[1..]), d);
      OneFrame(d, fs[0], gs[0]);
      SamePrefix(fs[1..], gs[1..], d[n..]);
      assert fs == [fs[0]] + fs[1..] && gs == [gs[0]] + gs[1..];
    }
  }

  /** An accepted run in two parts. */
  lemma {:induction false} SplitRun(fs: seq<Frame>, gs: seq<Frame>, st: State, cfg: Config)
    requires Sendable(fs + gs, st, cfg)
    ensures Sendable(fs, st, cfg) && Sendable(gs, After(Headers(fs), st), cfg)
    ensures After(Headers(fs + gs), st) == After(Headers(gs), After(Headers(fs), st))
    decreases |fs|
  {
    hide Accepted, After, Admissible, Next, Frame.Valid;
    if fs == [] {
      assert fs + gs == gs;
      SendableNone(st, cfg);
    } else {
      var f, rest := fs[0], fs[1..];
      assert (fs + gs)[0] == f && (fs + gs)[1..] == rest + gs;
      SendableFront(fs + gs, st, cfg);
      SendableParts(fs + gs, st, cfg);
      SplitRun(rest, gs, Next(f.h, st), cfg);
      SendableParts(fs, st, cfg);
    }
  }

  /** Frames in the middle of a message leave it under way, and if none is afterwards, then there
      was no data. */
  lemma {:induction false} MiddleRun(fs: seq<Frame>, st: State, cfg: Config)
    requires Sendable(fs, st, cfg) && forall i :: 0 <= i < |fs| ==> Middle(fs[i])
    ensures var next := After(Headers(fs), st);
      && (st.cont ==> next.cont && next.op == st.op)
      && (!next.cont ==> DataOf(fs) == [])
    decreases |fs|
  {
    hide Accepted, After, Fits;
    if fs == [] {
      SendableNone(st, cfg);
    } else {
      SendableFront(fs, st, cfg);
      SendableParts(fs, st, cfg);
      MiddleStep(fs[0], st, cfg);
      assert forall i :: 0 <= i < |fs| - 1 ==> fs[1..][i] == fs[i + 1];
      MiddleRun(fs[1..], Next(fs[0].h, st), cfg);
      DataOfParts(fs);
    }
  }

  lemma MiddleStep(f: Frame, st: State, cfg: Config)
    requires Admissible(f.h, st, cfg) && Middle(f)
    ensures var next := Next(f.h, st);
      if IsControl(f.h.op) then next == st && DataIn(f) == []
      else next.cont && (st.cont ==> next.op == st.op) && DataIn(f) == f.payload
  {
    hide Fits;
  }

  /** A frame in the middle at which the text does not go bad is not where reading ends. */
  lemma MiddleGoesOn(r: Result, f: Frame, c: Frame, d: seq<u8>, held: seq<u8>, st: State, cfg: Config)
    requires c.Valid() && Wire(c) <= d && Admissible(c.h, st, cfg) && Middle(c) && !BadFrame(held, c, Next(c.h, st))
    ensures !Ends(r, f, d, held, st, cfg)
  {
    hide Wire, Admissible, BadFrame, Hopeless, TooBig, Rejects, Legal, ClosePayload, Front;
    NotHopeless(d, c, st, cfg);
    NotBoth(c);
    WholeIsFront(c, d);
    WholeIsFront(f, d);
    if Front(f, d) {
      OneFront(d, f, c);
    }
  }

  /** Nor is it bad if the text with everything up to a later frame can still be completed. */
  lemma NotBadBefore(fs: seq<Frame>, c: Frame, rest: seq<Frame>, held: seq<u8>, st0: State, cfg: Config)
    requires Sendable(fs + ([c] + rest), st0, cfg)
    requires (forall i :: 0 <= i < |fs| ==> Middle(fs[i])) && Middle(c)
    requires forall i :: 0 <= i < |rest| ==> Middle(rest[i])
    requires var gs := fs + ([c] + rest);
      Utf8Automaton.Completable(TextSoFar(held, DataOf(gs), After(Headers(gs), st0)))
    ensures var st := After(Headers(fs), st0);
      && c.Valid() && Admissible(c.h, st, cfg)
      && !BadFrame(TextSoFar(held, DataOf(fs), st), c, Next(c.h, st))
  {
    hide Accepted, After, Admissible, Next, Sendable, TextSoFar, TextAfter, TextBad, Utf8Automaton.Completable, DataOf;
    var gs, st := fs + ([c] + rest), After(Headers(fs), st0);
    SplitRun(fs, [c] + rest, st0, cfg);
    SendableFront([c] + rest, st, cfg);
    SendableParts([c] + rest, st, cfg);
    assert ([c] + rest)[1..] == rest;
    MiddleRun(fs, st0, cfg);
    var next := Next(c.h, st);
    MiddleRun(rest, next, cfg);
    MiddleStep(c, st, cfg);
    DataOfAppend(fs, [c] + rest);
    DataOfFront(c, rest);
    TextSoFarStep(held, DataOf(fs), st, c, cfg);
    if BadFrame(TextSoFar(held, DataOf(fs), st), c, next) {
      TextUnderWay(held, DataOf(gs), After(Headers(gs), st0));
      Assoc(held, DataOf(fs), c.payload + DataOf(rest));
      Assoc(held + DataOf(fs), c.payload, DataOf(rest));
      Assoc(held, DataOf(fs), c.payload);
      NotCompletable(held + PayloadWith(DataOf(fs), c), held + DataOf(gs));
    }
  }

  lemma TextUnderWay(held: seq<u8>, p: seq<u8>, st: State)
    requires st.cont && st.op == TEXT
    ensures TextSoFar(held, p, st) == held + p
  {
  }

  lemma NotCompletable(t: seq<u8>, u: seq<u8>)
    requires t <= u && TextBad(t, false)
    ensures !Utf8Automaton.Completable(u)
  {
    hide Utf8Automaton.Completable;
    BadStaysBad(t, u);
  }

  /** Reading does not end earlier one way than the other. */
  lemma NotEarlier(r: Result, f: Frame, fs: seq<Frame>, q: Result, g: Frame, gs: seq<Frame>,
                   d0: seq<u8>, held: seq<u8>, st0: State, cfg: Config)
    requires EndsAfter(r, f, fs, d0, held, st0, cfg) && EndsAfter(q, g, gs, d0, held, st0, cfg)
    ensures |fs| >= |gs|
  {
    hide Wire, WireAll, Accepted, After, Admissible, Next, Middle, Ends, TextSoFar, DataOf, BadFrame;
    hide Utf8Automaton.Completable;
    if |fs| < |gs| {
      SamePrefix(fs, gs, d0);
      var c, rest := gs[|fs|], gs[|fs| + 1..];
      assert gs == fs + ([c] + rest);
      NotBadBefore(fs, c, rest, held, st0, cfg);
      var st := After(Headers(fs), st0);
      FrameBehind(fs, c, rest, d0);
      MiddleGoesOn(r, f, c, d0[|WireAll(fs)|..], TextSoFar(held, DataOf(fs), st), st, cfg);
    }
  }

  lemma FrameBehind(fs: seq<Frame>, c: Frame, rest: seq<Frame>, d: seq<u8>)
    requires AllValid(fs + ([c] + rest)) && AllValid(fs) && c.Valid() && WireAll(fs + ([c] + rest)) <= d
    ensures WireAll(fs) <= d && Wire(c) <= d[|WireAll(fs)|..]
  {
    hide Wire;
    var tail := [c] + rest;
    assert forall i :: 0 <= i < |tail| ==> tail[i] == (fs + tail)[|fs| + i];
    WireAllConcat(fs, tail);
    PrefixParts(WireAll(fs), WireAll(tail), d);
    PrefixParts(Wire(c), WireAll(tail[1..]), d[|WireAll(fs)|..]);
  }

  /** A close payload comes from one legal reason only. */
  lemma LegalOne(c: CloseReason, e: CloseReason)
    requires Legal(c) && Legal(e) && ClosePayload(c) == ClosePayload(e)
    ensures c == e
  {
    if c.code != 0 && e.code != 0 {
      ClosePayloadParts(ClosePayload(c));
    }
  }

  /** With the same frames in front the results are the same. */
  lemma EndsOnce(r: Result, f: Frame, q: Result, g: Frame, d: seq<u8>, held: seq<u8>, st: State, cfg: Config)
    requires Ends(r, f, d, held, st, cfg) && Ends(q, g, d, held, st, cfg)
    ensures r == q
  {
    hide Wire, Admissible, Next, BadFrame, Hopeless, TooBig, Rejects, Legal, ClosePayload, Frame.Valid, Front;
    FrontFacts(f, d, held, st, cfg);
    FrontFacts(g, d, held, st, cfg);
    if Front(f, d) && Front(g, d) {
      OneFront(d, f, g);
    }
    if r.Closed? && q.Closed? {
      LegalOne(r.cr, q.cr);
    }
  }

  lemma FrontFacts(f: Frame, d: seq<u8>, held: seq<u8>, st: State, cfg: Config)
    ensures f.Valid() && Wire(f) <= d ==> Front(f, d)
    ensures Front(f, d) && Admissible(f.h, st, cfg) ==> !Hopeless(d, st, cfg)
    ensures BadFrame(held, f, Next(f.h, st)) ==> f.h.op != CLOSE
  {
    hide Wire, Admissible, Next, Hopeless, TextBad;
    if Front(f, d) && Admissible(f.h, st, cfg) {
      NotHopeless(d, f, st, cfg);
    }
  }

  /** What read() returns is determined by the octets on the wire, by where the receiver stands and
      by the text it holds. */
  lemma OneResult(r: Result, f: Frame, fs: seq<Frame>, q: Result, g: Frame, gs: seq<Frame>,
                  d0: seq<u8>, held: seq<u8>, st0: State, cfg: Config)
    requires EndsAfter(r, f, fs, d0, held, st0, cfg) && EndsAfter(q, g, gs, d0, held, st0, cfg)
    ensures r == q && fs == gs
  {
    hide Wire, WireAll, Accepted, After, Middle, Ends, TextSoFar, DataOf, Utf8Automaton.Completable;
    NotEarlier(r, f, fs, q, g, gs, d0, held, st0, cfg);
    NotEarlier(q, g, gs, r, f, fs, d0, held, st0, cfg);
    SamePrefix(fs, gs, d0);
    assert fs == gs;
    var st := After(Headers(fs), st0);
    EndsOnce(r, f, q, g, d0[|WireAll(fs)|..], TextSoFar(held, DataOf(fs), st), st, cfg);
  }
}
