/** Which sequences of frame headers a WebSocket endpoint accepts: the receive rules of
    include/beast/websocket/detail/stream_base.hpp against section 5.4 of RFC 6455. */
module Protocol {
  import opened Bytes
  import opened FrameHeader

  datatype Role = Client | Server

  function Peer(role: Role): Role { if role == Client then Server else Client }

  /** The frame_header that write_frame(), write_close() and write_ping() fill in. */
  function OwnHeader(op: opcode, fin: bool, len: nat, role: Role, key: bv32): Header {
    Header(op, fin, role == Client, false, false, false, len, if role == Client then key else 0)
  }

  /** The receiver's role and its limit on message sizes, 0 for none. */
  datatype Config = Config(role: Role, max: nat)

  // ---- One header ----

  /** Reserved bits clear, opcode defined, masked exactly when it comes from a client, and
      control frames unfragmented and short. */
  ghost predicate WellFormed(h: Header, role: Role) {
    && !h.rsv1 && !h.rsv2 && !h.rsv3
    && (h.op <= 2 || 8 <= h.op <= 10)
    && (h.mask <==> role == Server)
    && (IsControl(h.op) ==> h.fin && h.len <= 125)
  }

  /** A data frame continues a message exactly when one is under way. */
  ghost predicate Expected(h: Header, cont: bool) {
    !IsControl(h.op) ==> (h.op == CONT <==> cont)
  }

  ghost predicate Fits(size: nat, max: nat) {
    size < TWO_64 && (max == 0 || size <= max)
  }

  /** rd_cont_, rd_size_ and rd_opcode_ */
  datatype State = State(cont: bool, size: nat, op: opcode)

  function SizeAfter(h: Header, st: State): nat {
    if h.op == CONT then st.size + h.len else h.len
  }

  ghost predicate Admissible(h: Header, st: State, cfg: Config) {
    && WellFormed(h, cfg.role) && Expected(h, st.cont)
    && (!IsControl(h.op) ==> Fits(SizeAfter(h, st), cfg.max))
  }

  /** The same in numbers: opcodes 8 to 10 close, ping and pong, 1 and 2 start a message, 0 goes on
      with one, and its size fits 64 bits and the limit. */
  lemma AdmissibleInNumbers(h: Header, st: State, cfg: Config)
    ensures Admissible(h, st, cfg) <==>
      && !h.rsv1 && !h.rsv2 && !h.rsv3 && h.mask == cfg.role.Server?
      && (if 8 <= h.op <= 10 then h.fin && h.len <= 125
          else
            && (if st.cont then h.op == 0 else h.op == 1 || h.op == 2)
            && var size := if h.op == 0 then st.size + h.len else h.len;
            size <= 0xFFFF_FFFF_FFFF_FFFF && (cfg.max == 0 || size <= cfg.max))
  {
  }

  /** The shortest frame of opcode op, which is admitted if any frame is. */
  function Shortest(op: opcode, role: Role): Header {
    Header(op, true, role.Server?, false, false, false, 0, 0)
  }

  /** Six opcodes are admitted, five of them between messages and four in the middle of one. */
  lemma SixOpcodes(op: opcode, st: State, cfg: Config)
    requires Fits(st.size, cfg.max)
    ensures (exists h: Header :: h.op == op && Admissible(h, st, cfg)) <==>
            op in (if st.cont then {0, 8, 9, 10} else {1, 2, 8, 9, 10})
  {
    assert Shortest(op, cfg.role).op == op;
    assert op in (if st.cont then {0, 8, 9, 10} else {1, 2, 8, 9, 10}) ==>
      Admissible(Shortest(op, cfg.role), st, cfg);
  }

  /** Control frames leave the message state alone. */
  function Next(h: Header, st: State): State {
    if IsControl(h.op) then st
    else State(!h.fin, SizeAfter(h, st), if h.op == CONT then st.op else h.op)
  }

  // ---- Runs ----

  function After(hs: seq<Header>, st: State): State {
    if hs == [] then st else Next(hs[|hs| - 1], After(hs[..|hs| - 1], st))
  }

  ghost predicate Accepted(hs: seq<Header>, st: State, cfg: Config) {
    hs != [] ==>
      && Accepted(hs[..|hs| - 1], st, cfg)
      && Admissible(hs[|hs| - 1], After(hs[..|hs| - 1], st), cfg)
  }

  // ---- Section 5.4: messages ----

  /** The headers that are not control frames. */
  function Data(hs: seq<Header>): seq<Header> {
    if hs == [] then []
    else Data(hs[..|hs| - 1]) + (if IsControl(hs[|hs| - 1].op) then [] else [hs[|hs| - 1]])
  }

  function Sum(hs: seq<Header>): nat {
    if hs == [] then 0 else Sum(hs[..|hs| - 1]) + hs[|hs| - 1].len
  }

  /** A text or binary frame followed by continuation frames. */
  ghost predicate OneMessage(m: seq<Header>) {
    && m != [] && m[0].op != CONT
    && (forall i :: 0 < i < |m| ==> m[i].op == CONT)
    && (forall i :: 0 <= i < |m| - 1 ==> !m[i].fin)
  }

  ghost predicate Complete(m: seq<Header>, max: nat) {
    OneMessage(m) && m[|m| - 1].fin && Fits(Sum(m), max)
  }

  ghost predicate Unfinished(m: seq<Header>, max: nat) {
    m == [] || (OneMessage(m) && !m[|m| - 1].fin && Fits(Sum(m), max))
  }

  /** Whole messages, one after the other, and possibly the beginning of another. */
  ghost predicate MessagesWith(ds: seq<Header>, msgs: seq<seq<Header>>, tail: seq<Header>, max: nat) {
    && ds == Concat(msgs) + tail
    && (forall i :: 0 <= i < |msgs| ==> Complete(msgs[i], max))
    && Unfinished(tail, max)
  }

  ghost predicate Messages(ds: seq<Header>, max: nat) {
    exists msgs, tail :: MessagesWith(ds, msgs, tail, max)
  }

  /** The frames of the message that the last data frame belongs to. */
  function Current(ds: seq<Header>): (m: seq<Header>)
    ensures m != [] <==> ds != []
  {
    if ds == [] then []
    else var n := |ds| - 1;
      if n > 0 && !ds[n - 1].fin then Current(ds[..n]) + [ds[n]] else [ds[n]]
  }

  /** The message under way after ds. */
  function Open(ds: seq<Header>): seq<Header> {
    if ds != [] && !ds[|ds| - 1].fin then Current(ds) else []
  }

  /** The unfinished part of a decomposition is what is open. */
  lemma {:induction false} TailIsOpen(ds: seq<Header>, msgs: seq<seq<Header>>, tail: seq<Header>, max: nat)
    requires MessagesWith(ds, msgs, tail, max)
    ensures tail == Open(ds)
    decreases |tail|
  {
    if tail == [] {
      if msgs != [] {
        var n := |msgs| - 1;
        assert Complete(msgs[n], max);
        assert ds[|ds| - 1] == msgs[n][|msgs[n]| - 1];
      }
    } else {
      var k, n := |tail| - 1, |ds| - 1;
      assert ds[n] == tail[k] && ds[..n] == Concat(msgs) + tail[..k];
      if k == 0 {
        NoOpenBefore(msgs, tail, ds, max);
      } else {
        SumPrefix(tail, k);
        assert MessagesWith(ds[..n], msgs, tail[..k], max);
        TailIsOpen(ds[..n], msgs, tail[..k], max);
        assert ds[n - 1] == tail[k - 1];
      }
      assert tail == tail[..k] + [tail[k]];
    }
  }

  lemma NoOpenBefore(msgs: seq<seq<Header>>, tail: seq<Header>, ds: seq<Header>, max: nat)
    requires MessagesWith(ds, msgs, tail, max) && |tail| == 1
    ensures |ds| > 1 ==> ds[|ds| - 2].fin
  {
    if msgs != [] {
      var n := |msgs| - 1;
      assert Complete(msgs[n], max);
      assert ds[|ds| - 2] == msgs[n][|msgs[n]| - 1];
    }
  }

  lemma SumPrefix(m: seq<Header>, k: nat)
    requires k <= |m|
    ensures Sum(m[..k]) <= Sum(m)
    decreases |m|
  {
    if k < |m| {
      var n := |m| - 1;
      SumPrefix(m[..n], k);
      assert m[..n][..k] == m[..k];
    } else {
      assert m[..k] == m;
    }
  }

  lemma SumAppend(m: seq<Header>, d: Header)
    ensures Sum(m + [d]) == Sum(m) + d.len
  {
    assert (m + [d])[..|m|] == m;
  }

  lemma SnocParts<T>(a: seq<T>, x: T, b: seq<T>, y: T)
    requires a + [x] == b + [y]
    ensures a == b && x == y
  {
    assert (a + [x])[|a|] == x && (b + [y])[|b|] == y;
    assert (a + [x])[..|a|] == a && (b + [y])[..|b|] == b;
  }

  lemma MessageMore(tail: seq<Header>, d: Header, max: nat)
    requires Unfinished(tail, max) && !IsControl(d.op)
    requires (d.op == CONT <==> tail != []) && Fits(Sum(tail) + d.len, max)
    ensures if d.fin then Complete(tail + [d], max) else Unfinished(tail + [d], max)
  {
    SumAppend(tail, d);
    hide Sum, Fits;
  }

  lemma ConcatMore(msgs: seq<seq<Header>>, m: seq<Header>)
    ensures Concat(msgs + [m]) == Concat(msgs) + m
  {
    assert (msgs + [m])[..|msgs|] == msgs;
  }

  /** The expected frame that fits extends the open message. */
  lemma ExtendLast(ds: seq<Header>, d: Header, msgs: seq<seq<Header>>, tail: seq<Header>, max: nat)
    requires MessagesWith(ds, msgs, tail, max) && !IsControl(d.op)
    requires (d.op == CONT <==> tail != []) && Fits(Sum(tail) + d.len, max)
    ensures Messages(ds + [d], max)
  {
    hide Concat, Complete, Unfinished, Sum, Fits;
    var m := tail + [d];
    MessageMore(tail, d, max);
    Assoc(Concat(msgs), tail, [d]);
    if d.fin {
      ConcatMore(msgs, m);
      NothingOpen(max);
      assert Concat(msgs + [m]) + [] == Concat(msgs) + m;
      assert MessagesWith(ds + [d], msgs + [m], [], max);
    } else {
      assert MessagesWith(ds + [d], msgs, m, max);
    }
  }

  lemma NothingOpen(max: nat)
    ensures Unfinished([], max)
  {
  }

  /** The message that the last frame belongs to, without that frame. */
  lemma MessageLess(m: seq<Header>, max: nat)
    requires m != [] && (Complete(m, max) || Unfinished(m, max))
    ensures var k := |m| - 1;
      && Unfinished(m[..k], max) && (m[k].op == CONT <==> m[..k] != [])
      && Fits(Sum(m[..k]) + m[k].len, max) && m == m[..k] + [m[k]]
  {
    var k := |m| - 1;
    assert m == m[..k] + [m[k]];
    SumPrefix(m, k);
    SumAppend(m[..k], m[k]);
    hide Sum;
  }

  /** The message that the last frame belongs to. */
  lemma LastMessage(ds: seq<Header>, msgs: seq<seq<Header>>, tail: seq<Header>, max: nat)
    returns (rest: seq<seq<Header>>, m: seq<Header>)
    requires MessagesWith(ds, msgs, tail, max) && ds != []
    ensures m != [] && (Complete(m, max) || Unfinished(m, max)) && ds == Concat(rest) + m
    ensures forall i :: 0 <= i < |rest| ==> Complete(rest[i], max)
  {
    hide Complete, Unfinished;
    if tail != [] {
      return msgs, tail;
    }
    assert msgs != [];
    var n := |msgs| - 1;
    rest, m := msgs[..n], msgs[n];
    assert Concat(msgs) + [] == Concat(rest) + m;
    CompleteNotEmpty(m, max);
  }

  lemma CompleteNotEmpty(m: seq<Header>, max: nat)
    requires Complete(m, max)
    ensures m != []
  {
  }

  /** Taking the last data frame away undoes that. */
  lemma DropLast(ds: seq<Header>, d: Header, msgs: seq<seq<Header>>, tail: seq<Header>, max: nat)
    requires MessagesWith(ds + [d], msgs, tail, max)
    ensures Messages(ds, max) && (d.op == CONT <==> Open(ds) != []) && Fits(Sum(Open(ds)) + d.len, max)
  {
    hide Concat, Complete, Unfinished, Sum, Fits, Open;
    var rest, m := LastMessage(ds + [d], msgs, tail, max);
    MessageLess(m, max);
    var k := |m| - 1;
    Assoc(Concat(rest), m[..k], [m[k]]);
    SnocParts(ds, d, Concat(rest) + m[..k], m[k]);
    assert MessagesWith(ds, rest, m[..k], max);
    TailIsOpen(ds, rest, m[..k], max);
  }

  /** One more data frame keeps the grammar exactly when it is the expected one and fits. */
  lemma MessagesStep(ds: seq<Header>, d: Header, max: nat)
    requires !IsControl(d.op)
    ensures Messages(ds + [d], max) <==>
            Messages(ds, max) && (d.op == CONT <==> Open(ds) != []) && Fits(Sum(Open(ds)) + d.len, max)
  {
    hide MessagesWith, Fits, Open, Sum;
    if Messages(ds, max) && (d.op == CONT <==> Open(ds) != []) && Fits(Sum(Open(ds)) + d.len, max) {
      var msgs, tail :| MessagesWith(ds, msgs, tail, max);
      TailIsOpen(ds, msgs, tail, max);
      ExtendLast(ds, d, msgs, tail, max);
    }
    if Messages(ds + [d], max) {
      var msgs, tail :| MessagesWith(ds + [d], msgs, tail, max);
      DropLast(ds, d, msgs, tail, max);
    }
  }

  /** What the receiver knows after an accepted run from open(): whether a message is under way,
      the exact size of the current one, and its opcode. */
  ghost predicate Tracks(st: State, ds: seq<Header>) {
    && (st.cont <==> Open(ds) != [])
    && (ds != [] ==> st.size == Sum(Current(ds)) && st.op == Current(ds)[0].op)
  }

  lemma CurrentMore(ds: seq<Header>, h: Header)
    ensures Current(ds + [h]) == if Open(ds) != [] then Current(ds) + [h] else [h]
    ensures Open(ds + [h]) == if h.fin then [] else Current(ds + [h])
    ensures Open(ds) != [] ==> Open(ds) == Current(ds) && ds != []
  {
    assert (ds + [h])[..|ds|] == ds;
  }

  lemma SumOne(h: Header)
    ensures Sum([h]) == h.len
  {
    assert [h][..0] == [];
  }

  lemma TracksNext(ds: seq<Header>, h: Header, st: State)
    requires Tracks(st, ds) && Expected(h, st.cont)
    ensures Tracks(Next(h, st), if IsControl(h.op) then ds else ds + [h])
  {
    hide Current, Open, Sum;
    if !IsControl(h.op) {
      CurrentMore(ds, h);
      SumOne(h);
      SumAppend(Current(ds), h);
    }
  }

  /** From open(), the accepted runs of headers are those made of well-formed headers whose data
      frames form messages within the limit; and the receiver's fields track them. */
  lemma {:induction false} AcceptedRuns(hs: seq<Header>, st: State, cfg: Config)
    requires !st.cont
    ensures Accepted(hs, st, cfg) <==>
            (forall i :: 0 <= i < |hs| ==> WellFormed(hs[i], cfg.role)) && Messages(Data(hs), cfg.max)
    ensures Accepted(hs, st, cfg) ==> Tracks(After(hs, st), Data(hs))
    decreases |hs|
  {
    hide WellFormed, Messages, Tracks, Fits;
    if hs == [] {
      NothingRead(st, cfg.max);
    } else {
      var n := |hs| - 1;
      var before, h := hs[..n], hs[n];
      AcceptedRuns(before, st, cfg);
      assert (forall i :: 0 <= i < |hs| ==> WellFormed(hs[i], cfg.role)) <==>
             (forall i :: 0 <= i < n ==> WellFormed(before[i], cfg.role)) && WellFormed(h, cfg.role);
      AcceptedStep(before, h, After(before, st), cfg);
    }
  }

  lemma NothingRead(st: State, max: nat)
    requires !st.cont
    ensures Messages([], max) && Tracks(st, [])
  {
    assert MessagesWith([], [], [], max);
  }

  /** What the receiver checks against its fields is what the grammar asks of the open message. */
  lemma TracksOpen(ds: seq<Header>, h: Header, st: State)
    requires Tracks(st, ds) && !IsControl(h.op)
    ensures Expected(h, st.cont) <==> (h.op == CONT <==> Open(ds) != [])
    ensures Expected(h, st.cont) ==> SizeAfter(h, st) == Sum(Open(ds)) + h.len
  {
    hide Current;
    assert Sum([]) == 0;
    hide Sum;
  }

  lemma DataMore(hs: seq<Header>, h: Header)
    ensures Data(hs + [h]) == if IsControl(h.op) then Data(hs) else Data(hs) + [h]
  {
    assert (hs + [h])[..|hs|] == hs;
    assert Data(hs) + [] == Data(hs);
  }

  lemma AcceptedStep(hs: seq<Header>, h: Header, st: State, cfg: Config)
    ensures Tracks(st, Data(hs)) ==>
      && (Messages(Data(hs), cfg.max) && Admissible(h, st, cfg) <==>
          WellFormed(h, cfg.role) && Messages(Data(hs + [h]), cfg.max))
      && (Admissible(h, st, cfg) ==> Tracks(Next(h, st), Data(hs + [h])))
    ensures Messages(Data(hs + [h]), cfg.max) ==> Messages(Data(hs), cfg.max)
  {
    hide WellFormed, Messages, Fits, Data, Tracks, Open, Sum, Expected, SizeAfter, Next;
    var ds := Data(hs);
    DataMore(hs, h);
    if IsControl(h.op) {
      ControlStep(h, st);
    } else {
      MessagesStep(ds, h, cfg.max);
      if Tracks(st, ds) {
        TracksOpen(ds, h, st);
        if Expected(h, st.cont) {
          TracksNext(ds, h, st);
        }
      }
    }
  }

  lemma ControlStep(h: Header, st: State)
    requires IsControl(h.op)
    ensures Next(h, st) == st && Expected(h, st.cont)
  {
  }

  const TOP_BIT: nat := 0x8000_0000_0000_0000

  /** A header the receiver admits although section 5.2 wants the top bit of a 64-bit length to
      be 0: the parser does not look at that bit. */
  function HugeHeader(role: Role): Header {
    Header(BINARY, true, role == Server, false, false, false, TOP_BIT, 0)
  }

  lemma HugeHeaderAdmitted(cfg: Config)
    ensures HugeHeader(cfg.role).Valid() && HugeHeader(cfg.role).len == TOP_BIT
    ensures Admissible(HugeHeader(cfg.role), State(false, 0, TEXT), cfg) <==> !(0 < cfg.max < TOP_BIT)
  {
  }

  /** Only the limit on message sizes keeps such lengths out, and it does so exactly when it is
      set and below 2^63. */
  lemma TopBitOfLength(cfg: Config)
    ensures (forall h, st :: Admissible(h, st, cfg) ==> h.len < TOP_BIT) <==> 0 < cfg.max < TOP_BIT
  {
    HugeHeaderAdmitted(cfg);
  }
}
