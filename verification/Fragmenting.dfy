/** What auto fragmentation sends: the rule by which write_frame() of
    include/beast/websocket/impl/stream.ipp cuts a message into frames, and when the frames of
    several calls make up the message that was written. */
module Fragmenting {
  import opened Bytes
  import opened FrameHeader

  /** A frame as far as fragmentation is concerned. */
  datatype Piece = Piece(op: opcode, fin: bool, payload: seq<u8>)

  /** The fields of wr_ that matter: held stands for the size octets kept in the write buffer. */
  datatype Pending = Pending(cont: bool, auto: bool, max: nat, held: seq<u8>)

  /** The options wr_autofrag_ and wr_buf_size_. */
  datatype Options = Options(auto: bool, max: nat)

  /** The octets t leave in frames of m octets.  Without fin, fewer than m octets stay behind. */
  function Cut(t: seq<u8>, op: opcode, fin: bool, m: nat): (ps: seq<Piece>)
    requires m > 0
    decreases |t|
  {
    if !fin && |t| < m then []
    else if |t| <= m then [Piece(op, fin, t)]
    else [Piece(op, false, t[..m])] + Cut(t[m..], CONT, fin, m)
  }

  /** The octets that stay behind; none when the loop runs to its end. */
  function Rest(t: seq<u8>, fin: bool, m: nat): (r: seq<u8>)
    requires m > 0
    decreases |t|
  {
    if |t| <= m then (if !fin && |t| < m then t else [])
    else Rest(t[m..], fin, m)
  }

  /** The loop returned early, from inside. */
  predicate Early(t: seq<u8>, fin: bool, m: nat)
    requires m > 0
    decreases |t|
  {
    if |t| <= m then !fin && |t| < m else Early(t[m..], fin, m)
  }

  /** wr_prepare(), which is called unless a message is being continued: the options take effect
      and whatever was kept is dropped. */
  function Prepared(w: Pending, opt: Options): Pending {
    if w.cont then w else Pending(false, opt.auto, opt.max, [])
  }

  function CallPieces(w: Pending, opt: Options, op: opcode, fin: bool, data: seq<u8>): seq<Piece>
    requires w.max > 0 && opt.max > 0
  {
    var p := Prepared(w, opt);
    var o := if p.cont then CONT else op;
    if p.auto then Cut(p.held + data, o, fin, p.max) else [Piece(o, fin, data)]
  }

  function CallAfter(w: Pending, opt: Options, fin: bool, data: seq<u8>): (w': Pending)
    requires w.max > 0 && opt.max > 0
    ensures w'.max > 0
  {
    var p := Prepared(w, opt);
    if p.auto && Early(p.held + data, fin, p.max) then p.(held := Rest(p.held + data, fin, p.max))
    else p.(cont := !fin, held := [])
  }

  /** The pieces sent when a message is written by one call for each element of datas, the last
      of them with fin. */
  function MessagePieces(w: Pending, opt: Options, op: opcode, datas: seq<seq<u8>>): seq<Piece>
    requires w.max > 0 && opt.max > 0
    decreases |datas|
  {
    if datas == [] then []
    else
      var fin := |datas| == 1;
      CallPieces(w, opt, op, fin, datas[0]) + MessagePieces(CallAfter(w, opt, fin, datas[0]), opt, op, datas[1..])
  }

  function Payload(ps: seq<Piece>): seq<u8> {
    if ps == [] then [] else ps[0].payload + Payload(ps[1..])
  }

  /** One message: the opcode first, then continuations, and fin at the end and only there. */
  ghost predicate Message(ps: seq<Piece>, op: opcode) {
    && ps != []
    && (forall i :: 0 <= i < |ps| ==> ps[i].op == if i == 0 then op else CONT)
    && (forall i :: 0 <= i < |ps| ==> (ps[i].fin <==> i == |ps| - 1))
  }

  /** What the caller of write_frame() means. */
  ghost predicate Faithful(ps: seq<Piece>, op: opcode, datas: seq<seq<u8>>) {
    Message(ps, op) && Payload(ps) == Concat(datas)
  }

  lemma {:induction false} PayloadAppend(ps: seq<Piece>, qs: seq<Piece>)
    ensures Payload(ps + qs) == Payload(ps) + Payload(qs)
    decreases |ps|
  {
    if ps == [] {
      assert ps + qs == qs;
    } else {
      PayloadAppend(ps[1..], qs);
      assert (ps + qs)[1..] == ps[1..] + qs;
    }
  }

  /** Pieces that continue: all of them continuations, fin on the last if fin is given and on none
      otherwise. */
  ghost predicate Fragments(ps: seq<Piece>, op: opcode, fin: bool) {
    && (forall i :: 0 <= i < |ps| ==> ps[i].op == if i == 0 then op else CONT)
    && (forall i :: 0 <= i < |ps| ==> (ps[i].fin <==> fin && i == |ps| - 1))
  }

  lemma CutMore(t: seq<u8>, op: opcode, fin: bool, m: nat)
    requires 0 < m < |t|
    ensures var ps := Cut(t, op, fin, m);
      |ps| > 0 && ps[0] == Piece(op, false, t[..m]) && ps[1..] == Cut(t[m..], CONT, fin, m)
  {
  }

  lemma OnePiece(ps: seq<Piece>)
    requires |ps| == 1
    ensures Payload(ps) == ps[0].payload
  {
    assert ps[1..] == [];
    assert ps[0].payload + [] == ps[0].payload;
  }

  /** Cutting loses nothing. */
  lemma {:induction false} CutKeepsOctets(t: seq<u8>, op: opcode, fin: bool, m: nat)
    requires m > 0
    ensures Payload(Cut(t, op, fin, m)) + Rest(t, fin, m) == t
    ensures !Early(t, fin, m) ==> Rest(t, fin, m) == []
    decreases |t|
  {
    if |t| <= m {
      var ps := Cut(t, op, fin, m);
      if ps != [] {
        OnePiece(ps);
      }
    } else {
      CutMore(t, op, fin, m);
      CutKeepsOctets(t[m..], CONT, fin, m);
      hide Cut, Rest;
      Assoc(t[..m], Payload(Cut(t[m..], CONT, fin, m)), Rest(t[m..], fin, m));
      Rejoin(t, m);
    }
  }

  /** Cutting respects the frame size, and leaves less than a frame behind. */
  lemma {:induction false} CutSizes(t: seq<u8>, op: opcode, fin: bool, m: nat)
    requires m > 0
    ensures forall i :: 0 <= i < |Cut(t, op, fin, m)| ==> |Cut(t, op, fin, m)[i].payload| <= m
    ensures |Rest(t, fin, m)| < m
    decreases |t|
  {
    if |t| > m {
      CutMore(t, op, fin, m);
      CutSizes(t[m..], CONT, fin, m);
      var ps := Cut(t, op, fin, m);
      forall i | 0 <= i < |ps| ensures |ps[i].payload| <= m {
        if i > 0 {
          assert ps[i] == ps[1..][i - 1];
        }
      }
    }
  }

  /** Cutting makes continuations after the first frame and marks the end of the message. */
  lemma {:induction false} CutMarks(t: seq<u8>, op: opcode, fin: bool, m: nat)
    requires m > 0
    ensures Fragments(Cut(t, op, fin, m), op, fin)
    ensures fin ==> Cut(t, op, fin, m) != [] && !Early(t, fin, m)
    decreases |t|
  {
    if |t| > m {
      CutMore(t, op, fin, m);
      CutMarks(t[m..], CONT, fin, m);
      var ps, qs := Cut(t, op, fin, m), Cut(t[m..], CONT, fin, m);
      forall i | 0 <= i < |ps|
        ensures ps[i].op == (if i == 0 then op else CONT) && (ps[i].fin <==> fin && i == |ps| - 1)
      {
        if i > 0 {
          assert ps[i] == qs[i - 1];
        }
      }
    }
  }

  lemma CutEmpty(t: seq<u8>, op: opcode, fin: bool, m: nat)
    requires m > 0
    ensures Cut(t, op, fin, m) == [] <==> !fin && |t| < m
  {
  }

  /** Without fin the loop runs to its end exactly when the octets fill whole frames. */
  lemma {:induction false} EarlyIff(t: seq<u8>, m: nat)
    requires m > 0
    ensures Early(t, false, m) <==> t == [] || |t| % m != 0
    ensures Early(t, false, m) && t != [] ==> Rest(t, false, m) != []
    decreases |t|
  {
    if |t| < m {
      SmallMod(|t|, m);
    } else if |t| == m {
      assert |t| % m == 0;
    } else {
      EarlyIff(t[m..], m);
      StepMod(|t|, m);
    }
  }

  lemma SmallMod(n: nat, m: nat)
    requires n < m
    ensures n % m == n
  {
  }

  lemma StepMod(n: nat, m: nat)
    requires m > 0 && n > m
    ensures (n - m) % m == n % m
  {
    var q, r := n / m, n % m;
    assert n - m == (q - 1) * m + r;
    UniqueMod(n - m, q - 1, r, m);
  }

  lemma UniqueMod(n: nat, q: int, r: nat, m: nat)
    requires n == q * m + r && r < m
    ensures n % m == r
  {
    var q', r' := n / m, n % m;
    assert n == q' * m + r';
    if q > q' {
      AtLeastOnce(q - q', m);
      Distribute(q, q', m);
    } else if q < q' {
      AtLeastOnce(q' - q, m);
      Distribute(q', q, m);
    }
  }

  lemma AtLeastOnce(k: nat, m: nat)
    requires k >= 1
    ensures k * m >= m
  {
  }

  lemma Distribute(a: int, b: int, m: nat)
    ensures (a - b) * m == a * m - b * m
  {
  }

  // ---- Several calls ----

  lemma FragmentsAppend(ps: seq<Piece>, qs: seq<Piece>, op: opcode, op': opcode)
    requires Fragments(ps, op, false) && Fragments(qs, op', true) && qs != []
    requires op' == if ps == [] then op else CONT
    ensures Fragments(ps + qs, op, true) && ps + qs != []
  {
    forall i | 0 <= i < |ps + qs|
      ensures (ps + qs)[i].op == (if i == 0 then op else CONT) && ((ps + qs)[i].fin <==> i == |ps + qs| - 1)
    {
      if i < |ps| {
        assert (ps + qs)[i] == ps[i];
      } else {
        assert (ps + qs)[i] == qs[i - |ps|];
      }
    }
  }

  /** One call with an empty buffer to start from, or in a message being continued: the pieces
      and what is kept make up what was there and what was written. */
  lemma CallKeepsOctets(w: Pending, opt: Options, op: opcode, fin: bool, data: seq<u8>)
    requires w.max > 0 && opt.max > 0 && (w.cont && !w.auto ==> w.held == [])
    ensures var ps, p, w' := CallPieces(w, opt, op, fin, data), Prepared(w, opt), CallAfter(w, opt, fin, data);
      && Payload(ps) + w'.held == p.held + data
      && (w.cont ==> w'.cont == !fin)
      && w'.auto == p.auto && w'.max == p.max && (w'.cont && !w'.auto ==> w'.held == [])
      && (fin ==> w'.held == [] && !w'.cont && ps != [])
      && Fragments(ps, if w.cont then CONT else op, fin)
  {
    hide Cut, Rest, Early, Payload, Fragments;
    var p := Prepared(w, opt);
    var o := if p.cont then CONT else op;
    if p.auto {
      CutKeepsOctets(p.held + data, o, fin, p.max);
      CutMarks(p.held + data, o, fin, p.max);
    } else {
      OnePiece([Piece(o, fin, data)]);
      OneFragment(o, fin, data);
      assert p.held == [] && data + [] == data == [] + data;
    }
  }

  lemma OneFragment(op: opcode, fin: bool, data: seq<u8>)
    ensures Fragments([Piece(op, fin, data)], op, fin)
  {
  }

  /** Once a message is being continued nothing is lost. */
  lemma {:induction false} ContinuedMessage(w: Pending, opt: Options, op: opcode, datas: seq<seq<u8>>)
    requires w.max > 0 && opt.max > 0 && w.cont && datas != [] && (w.auto || w.held == [])
    ensures var ps := MessagePieces(w, opt, op, datas);
      ps != [] && Fragments(ps, CONT, true) && Payload(ps) == w.held + Concat(datas)
    decreases |datas|
  {
    hide CallPieces, CallAfter, Payload, Concat, Fragments;
    var fin, d, more := |datas| == 1, datas[0], datas[1..];
    var ps, w' := CallPieces(w, opt, op, fin, d), CallAfter(w, opt, fin, d);
    CallKeepsOctets(w, opt, op, fin, d);
    ConcatFront(datas);
    if fin {
      assert more == [];
      NoMore();
      assert ps + [] == ps && Payload(ps) + [] == Payload(ps) && d + [] == d;
    } else {
      var qs := MessagePieces(w', opt, op, more);
      ContinuedMessage(w', opt, op, more);
      PayloadAppend(ps, qs);
      FragmentsAppend(ps, qs, CONT, CONT);
      Assoc(Payload(ps), w'.held, Concat(more));
      Assoc(w.held, d, Concat(more));
    }
  }

  lemma NoMore()
    ensures Concat<u8>([]) == [] && Payload([]) == []
  {
  }

  /** Pieces that end like one message, whatever else is wrong with them: fin on the last and only
      there. */
  ghost predicate WellEnded(ps: seq<Piece>, op: opcode) {
    && ps != []
    && (forall i :: 0 <= i < |ps| ==> ps[i].op == op || ps[i].op == CONT)
    && (forall i :: 0 <= i < |ps| ==> (ps[i].fin <==> i == |ps| - 1))
  }

  lemma FragmentsEnd(ps: seq<Piece>, op: opcode, first: opcode)
    requires Fragments(ps, first, true) && ps != [] && (first == op || first == CONT)
    ensures WellEnded(ps, op)
  {
  }

  lemma EndedAppend(ps: seq<Piece>, qs: seq<Piece>, op: opcode, first: opcode)
    requires Fragments(ps, first, false) && (first == op || first == CONT) && WellEnded(qs, op)
    ensures WellEnded(ps + qs, op)
  {
    forall i | 0 <= i < |ps + qs|
      ensures (ps + qs)[i].op in {op, CONT} && ((ps + qs)[i].fin <==> i == |ps + qs| - 1)
    {
      if i < |ps| {
        assert (ps + qs)[i] == ps[i];
      } else {
        assert (ps + qs)[i] == qs[i - |ps|];
      }
    }
  }

  /** The end of a message is marked on its last frame and nowhere else, even if it loses octets. */
  lemma {:induction false} MessageEnds(w: Pending, opt: Options, op: opcode, datas: seq<seq<u8>>)
    requires w.max > 0 && opt.max > 0 && datas != [] && (w.cont && !w.auto ==> w.held == [])
    ensures WellEnded(MessagePieces(w, opt, op, datas), op)
    decreases |datas|
  {
    hide CallPieces, CallAfter, Payload, Fragments, WellEnded;
    var fin, d, more := |datas| == 1, datas[0], datas[1..];
    var ps, w' := CallPieces(w, opt, op, fin, d), CallAfter(w, opt, fin, d);
    CallKeepsOctets(w, opt, op, fin, d);
    if fin {
      assert MessagePieces(w', opt, op, more) == [] && ps + [] == ps;
      FragmentsEnd(ps, op, if w.cont then CONT else op);
    } else {
      MessageEnds(w', opt, op, more);
      EndedAppend(ps, MessagePieces(w', opt, op, more), op, if w.cont then CONT else op);
    }
  }

  /** More is never sent than was written. */
  lemma {:induction false} NothingAdded(w: Pending, opt: Options, op: opcode, datas: seq<seq<u8>>)
    requires w.max > 0 && opt.max > 0 && (w.cont && !w.auto ==> w.held == [])
    ensures |Payload(MessagePieces(w, opt, op, datas))| <= (if w.cont then |w.held| else 0) + |Concat(datas)|
    decreases |datas|
  {
    hide CallPieces, CallAfter, Payload, Concat;
    NoMore();
    if datas != [] {
      var fin, d, more := |datas| == 1, datas[0], datas[1..];
      var ps, w' := CallPieces(w, opt, op, fin, d), CallAfter(w, opt, fin, d);
      CallKeepsOctets(w, opt, op, fin, d);
      NothingAdded(w', opt, op, more);
      PayloadAppend(ps, MessagePieces(w', opt, op, more));
      ConcatFront(datas);
      assert |Payload(ps)| + |w'.held| == |Prepared(w, opt).held + d|;
    }
  }

  /** The first buffer that is not empty, unless it is the last one, fills whole frames. */
  ghost predicate FirstFills(datas: seq<seq<u8>>, m: nat)
    requires m > 0
  {
    forall j :: 0 <= j < |datas| - 1 && datas[j] != [] && (forall i :: 0 <= i < j ==> datas[i] == []) ==>
      |datas[j]| % m == 0
  }

  lemma FirstFillsFront(datas: seq<seq<u8>>, m: nat)
    requires m > 0 && |datas| > 1
    ensures FirstFills(datas, m) <==>
            if datas[0] != [] then |datas[0]| % m == 0 else FirstFills(datas[1..], m)
  {
    var more := datas[1..];
    if datas[0] != [] {
    } else {
      if FirstFills(more, m) {
        forall j | 0 <= j < |datas| - 1 && datas[j] != [] && (forall i :: 0 <= i < j ==> datas[i] == [])
          ensures |datas[j]| % m == 0
        {
          assert more[j - 1] == datas[j];
          assert forall i :: 0 <= i < j - 1 ==> more[i] == datas[i + 1];
        }
      }
      if FirstFills(datas, m) {
        forall j | 0 <= j < |more| - 1 && more[j] != [] && (forall i :: 0 <= i < j ==> more[i] == [])
          ensures |more[j]| % m == 0
        {
          assert datas[j + 1] == more[j];
          assert forall i :: 0 <= i < j + 1 ==> datas[i] == if i == 0 then [] else more[i - 1];
        }
      }
    }
  }

  /** A message written by several calls arrives as it was written exactly when auto
      fragmentation is off, or the first buffer that is not empty fills whole frames, or that
      buffer is the last.  Otherwise a call leaves octets in the write buffer without marking the
      message as begun, and the next call throws them away. */
  lemma {:induction false} FaithfulIff(w: Pending, opt: Options, op: opcode, datas: seq<seq<u8>>)
    requires w.max > 0 && opt.max > 0 && !w.cont && datas != [] && op != CONT
    ensures Faithful(MessagePieces(w, opt, op, datas), op, datas) <==> !opt.auto || FirstFills(datas, opt.max)
    decreases |datas|
  {
    hide CallPieces, CallAfter, Payload, Concat, FirstFills;
    var fin, d, more := |datas| == 1, datas[0], datas[1..];
    var ps, w' := CallPieces(w, opt, op, fin, d), CallAfter(w, opt, fin, d);
    var qs := MessagePieces(w', opt, op, more);
    CallKeepsOctets(w, opt, op, fin, d);
    if !fin {
      FirstCall(w, opt, op, fin, d);
    }
    ConcatFront(datas);
    PayloadAppend(ps, qs);
    NoMore();
    assert [] + d == d && Payload(ps) + [] == Payload(ps);
    if fin {
      assert more == [] && qs == [] && ps + qs == ps && d + [] == d;
      OneBuffer(datas, opt.max);
    } else if w'.cont {
      FirstFillsFront(datas, opt.max);
      ContinuedMessage(w', opt, op, more);
      assert [] + Concat(more) == Concat(more);
      FragmentsAppend(ps, qs, op, CONT);
    } else if d == [] {
      FirstFillsFront(datas, opt.max);
      assert ps == [] && ps + qs == qs;
      assert d + Concat(more) == Concat(more);
      FaithfulIff(w', opt, op, more);
    } else {
      FirstFillsFront(datas, opt.max);
      NothingAdded(w', opt, op, more);
    }
  }

  /** The first call of a message that is not its last one: the message has begun afterwards
      exactly when auto fragmentation is off or the octets fill whole frames. */
  lemma FirstCall(w: Pending, opt: Options, op: opcode, fin: bool, d: seq<u8>)
    requires w.max > 0 && opt.max > 0 && !w.cont && !fin
    ensures var ps, w' := CallPieces(w, opt, op, fin, d), CallAfter(w, opt, fin, d);
      && (w'.cont <==> !opt.auto || (d != [] && |d| % opt.max == 0))
      && (w'.cont ==> w'.held == [] && ps != [])
      && (!w'.cont && d != [] ==> w'.held != [])
      && (d == [] && opt.auto ==> ps == [])
  {
    hide Cut, Rest, Early;
    assert [] + d == d;
    if opt.auto {
      EarlyIff(d, opt.max);
      CutEmpty(d, op, fin, opt.max);
      if d != [] && |d| % opt.max == 0 {
        SomeFrame(d, op, opt.max);
      }
    }
  }

  lemma OneBuffer(datas: seq<seq<u8>>, m: nat)
    requires m > 0 && |datas| == 1
    ensures FirstFills(datas, m)
  {
  }

  lemma SomeFrame(d: seq<u8>, op: opcode, m: nat)
    requires m > 0 && d != [] && |d| % m == 0
    ensures Cut(d, op, false, m) != []
  {
    if |d| < m {
      SmallMod(|d|, m);
    }
    CutEmpty(d, op, false, m);
  }

  /** Two calls that lose an octet. */
  lemma LostOctet(op: opcode)
    requires op != CONT
    ensures !Faithful(MessagePieces(Pending(false, true, 8, []), Options(true, 8), op, [[1], [2]]), op, [[1], [2]])
  {
    hide Faithful, MessagePieces;
    var datas: seq<seq<u8>> := [[1], [2]];
    FaithfulIff(Pending(false, true, 8, []), Options(true, 8), op, datas);
    assert datas[0] != [] && |datas[0]| % 8 == 1;
  }
}
