/** Reading one frame: the payload part of read_frame() of include/beast/websocket/impl/stream.ipp,
    with the check of text that runs along. */
module FrameReader {
  import opened Bytes
  import opened Masking
  import opened FrameHeader
  import opened Protocol
  import opened StaticStreambuf
  import opened Receive
  import opened TextMessages
  import opened Utf8Spec
  import opened Utf8Checker

  lemma CoveredFront(d: seq<u8>, got: nat, n: nat, h: Header)
    requires got <= n <= |d|
    ensures Covered(d[..got], h) <= Covered(d[..n], h)
  {
    hide Covered;
    PayloadStep(d, got, n - got, h);
  }

  /** Text that cannot be completed stays so, and is not UTF-8. */
  lemma BadStaysBad(t: seq<u8>, u: seq<u8>)
    requires t <= u && !Utf8Automaton.Completable(t)
    ensures !Utf8Automaton.Completable(u) && !Utf8Octets(u)
  {
    hide Utf8Automaton.Completable, Utf8Octets;
    assert u == t + u[|t|..];
    if Utf8Automaton.Completable(u) {
      CompletablePrefix(t, u[|t|..]);
    }
    if Utf8Octets(u) {
      CompleteIsCompletable(u);
    }
  }

  lemma PieceOctets(s: seq<u8>, last: bool)
    ensures Piece([s], last).Octets() == s
  {
    ConcatOne(s);
  }

  /** Is the text so far fit to go on, or at the end of the message, to be delivered? */
  ghost predicate TextBad(t: seq<u8>, last: bool) {
    if last then !Utf8Octets(t) else !Utf8Automaton.Completable(t)
  }

  /** One read of payload, got octets into it: unmasked with the key carried over, and checked. */
  method TakeSome(s: Stream, db: Streambuf, ghost got: nat) returns (bad: bool, plain: seq<u8>)
    requires s.Valid() && db.Valid() && (s.base.rdNeed > 0 ==> db.Data() != [])
    requires KeyReady(s.base.rdKey, s.base.rdFh, got)
    modifies s.base`rdKey, s.base`rdNeed, s.check, db`inp
    ensures s.Valid() && db.Valid() && s.base.rdNeed + |plain| == old(s.base.rdNeed)
    ensures old(s.base.rdNeed) > 0 ==> plain != []
    ensures |plain| <= |old(db.Data())| && db.Data() == old(db.Data())[|plain|..]
    ensures plain == CoveredFrom(old(db.Data())[..|plain|], s.base.rdFh, got)
    ensures KeyReady(s.base.rdKey, s.base.rdFh, got + |plain|)
    ensures var text, last, t := s.base.rdOpcode == TEXT, s.base.rdNeed == 0 && s.base.rdFh.fin,
                                 old(s.check.Text()) + plain;
      && (bad <==> text && TextBad(t, last))
      && s.check.Text() == if !text then old(s.check.Text()) else if bad || last then [] else t
  {
    hide KeyReady, Utf8Octets, Utf8Automaton.Completable, CoveredFrom;
    hide Streambuf.Data, Checker.Text, Checker.Valid, TextMessages.Piece.Octets;
    plain := ReadSome(s.base, db, got);
    var last := s.base.rdNeed == 0 && s.base.rdFh.fin;
    PieceOctets(plain, last);
    bad := s.CheckPayload(TextMessages.Piece([plain], last));
  }

  /** The front of d, at most n octets. */
  function UpTo(d: seq<u8>, n: nat): (t: seq<u8>)
    ensures t <= d && |t| <= n
  {
    if |d| < n then d else d[..n]
  }

  /** The text with as much of the payload as d holds. */
  ghost predicate BadIn(d: seq<u8>, held: seq<u8>, h: Header) {
    var all := Covered(UpTo(d, h.len), h);
    TextBad(held + all, h.fin && |all| == h.len)
  }

  /** One read more: payload is that of the first got octets of d, and of the first k afterwards. */
  method TakePiece(s: Stream, db: Streambuf, ghost d: seq<u8>, ghost got: nat, ghost held: seq<u8>, payload: seq<u8>)
    returns (bad: bool, payload': seq<u8>, ghost k: nat)
    requires s.Valid() && db.Valid() && got <= |d| && db.Data() == d[got..] && (s.base.rdNeed > 0 ==> db.Data() != [])
    requires got + s.base.rdNeed == s.base.rdFh.len && KeyReady(s.base.rdKey, s.base.rdFh, got)
    requires payload == Covered(d[..got], s.base.rdFh)
    requires s.check.Text() == if s.base.rdOpcode == TEXT then held + payload else held
    modifies s.base`rdKey, s.base`rdNeed, s.check, db`inp
    ensures s.Valid() && db.Valid() && k <= |d| && db.Data() == d[k..]
    ensures k + s.base.rdNeed == s.base.rdFh.len && KeyReady(s.base.rdKey, s.base.rdFh, k)
    ensures got <= k && (old(s.base.rdNeed) > 0 ==> got < k) && payload' == Covered(d[..k], s.base.rdFh)
    ensures bad ==> s.base.rdOpcode == TEXT && BadIn(d, held, s.base.rdFh)
    ensures !bad && s.base.rdNeed == 0 ==> !(s.base.rdOpcode == TEXT && BadIn(d, held, s.base.rdFh))
    ensures var last := s.base.rdNeed == 0 && s.base.rdFh.fin;
      s.check.Text() == if s.base.rdOpcode != TEXT then held else if bad || last then [] else held + payload'
  {
    hide KeyReady, Covered, CoveredFrom, TextBad, UpTo, BadIn, Streambuf.Data, Checker.Text, Checker.Valid;
    ghost var rest, h := db.Data(), s.base.rdFh;
    var plain;
    bad, plain := TakeSome(s, db, got);
    k, payload' := got + |plain|, payload + plain;
    PieceTaken(d, rest, got, h, held, payload, plain);
  }

  /** The payload of a data frame, in pieces of whatever size the stream gives; in a text message
      each is checked as it comes, and reading ends at the first bad one.  If the stream is cut off
      and its octets are not bad, then the payload falls short. */
  method TakePayload(s: Stream, db: Streambuf) returns (bad: bool, short: bool, payload: seq<u8>)
    requires s.Valid() && db.Valid() && s.base.rdNeed == s.base.rdFh.len
    requires KeyReady(s.base.rdKey, s.base.rdFh, 0)
    modifies s.base`rdKey, s.base`rdNeed, s.check, db`inp
    ensures s.Valid() && db.Valid()
    ensures short <==> !bad && |old(db.Data())| < s.base.rdFh.len
    ensures bad <==> s.base.rdOpcode == TEXT && BadIn(old(db.Data()), old(s.check.Text()), s.base.rdFh)
    ensures !bad ==> payload == Covered(UpTo(old(db.Data()), s.base.rdFh.len), s.base.rdFh)
    ensures !bad && !short ==> s.base.rdNeed == 0 && db.Data() == old(db.Data())[s.base.rdFh.len..]
    ensures s.check.Text() == if s.base.rdOpcode != TEXT then old(s.check.Text())
                              else if bad || (s.base.rdFh.fin && !short) then [] else old(s.check.Text()) + payload
  {
    hide KeyReady, Covered, UpTo, BadIn, Streambuf.Data, Checker.Text, Checker.Valid;
    ghost var d, got, held, h := db.Data(), 0, s.check.Text(), s.base.rdFh;
    payload, bad, short := [], false, false;
    PayloadStart(d, h);
    NothingToCheck(s.check);
    UpToIs(d, h.len);
    if s.base.rdNeed == 0 && !s.base.rdFh.fin {
      NotBadIn(d, held, h);
      return;
    }
    while true
      invariant s.Valid() && db.Valid() && got <= |d| && got + s.base.rdNeed == h.len && db.Data() == d[got..] && !bad
      invariant KeyReady(s.base.rdKey, h, got)
      invariant payload == Covered(d[..got], h)
      invariant s.check.Text() == if s.base.rdOpcode == TEXT then held + payload else held
      invariant s.base.rdNeed > 0 || h.fin
      decreases s.base.rdNeed
    {
      if s.base.rdNeed > 0 && db.Size() == 0 {
        NothingToCheck(s.check);
        NotBadIn(d, held, h);
        short := true;
        return;
      }
      bad, payload, got := TakePiece(s, db, d, got, held, payload);
      if bad || s.base.rdNeed == 0 {
        return;
      }
    }
  }

  lemma NotBadIn(d: seq<u8>, held: seq<u8>, h: Header)
    requires !(h.fin && |d| >= h.len)
    ensures BadIn(d, held, h) <==> !Utf8Automaton.Completable(held + Covered(UpTo(d, h.len), h))
  {
    hide Covered, Utf8Automaton.Completable;
  }

  lemma UpToIs(d: seq<u8>, len: nat)
    ensures UpTo(d, len) == d[..if |d| < len then |d| else len]
  {
  }

  /** One piece more of the payload, got octets into it. */
  lemma PieceTaken(d: seq<u8>, rest: seq<u8>, got: nat, h: Header, held: seq<u8>, payload: seq<u8>, plain: seq<u8>)
    requires got <= |d| && rest == d[got..] && got + |plain| <= h.len && |plain| <= |rest|
    requires payload == Covered(d[..got], h) && plain == CoveredFrom(rest[..|plain|], h, got)
    ensures rest[|plain|..] == d[got + |plain|..] && payload + plain == Covered(d[..got + |plain|], h)
    ensures held + (payload + plain) == (held + payload) + plain
    ensures var t, whole := (held + payload) + plain, got + |plain| == h.len;
      && (TextBad(t, whole && h.fin) ==> BadIn(d, held, h))
      && (whole ==> (TextBad(t, h.fin) <==> BadIn(d, held, h)))
  {
    hide Covered, CoveredFrom, TextBad;
    var k := got + |plain|;
    var n := if |d| < h.len then |d| else h.len;
    PayloadStep(d, got, |plain|, h);
    CoveredFront(d, k, n, h);
    Assoc(held, payload, plain);
    UpToIs(d, h.len);
    Verdict(held, payload + plain, Covered(d[..n], h), h.fin && n == h.len, k == n && h.fin && n == h.len, k == n);
  }

  lemma NothingToCheck(c: Checker)
    requires c.Valid()
    ensures Utf8Automaton.Completable(c.Text()) && !TextBad(c.Text() + [], false) && c.Text() + [] == c.Text()
  {
    hide Utf8Automaton.Completable;
    ReadingVerdict(c.read);
    assert c.Text() + [] == c.Text();
  }

  /** What the verdict on the text so far means for the whole payload. */
  lemma Verdict(held: seq<u8>, part: seq<u8>, all: seq<u8>, fin: bool, last: bool, whole: bool)
    requires part <= all && (whole ==> part == all) && (last <==> whole && fin)
    ensures TextBad(held + part, last) ==> TextBad(held + all, fin)
    ensures whole ==> (TextBad(held + part, last) <==> TextBad(held + all, fin))
  {
    hide Utf8Octets, Utf8Automaton.Completable;
    if !last && !Utf8Automaton.Completable(held + part) {
      BadStaysBad(held + part, held + all);
    }
  }

  /** The payload of a control frame, read in one go. */
  method TakeControl(s: Stream, db: Streambuf) returns (payload: seq<u8>)
    requires s.Valid() && db.Valid() && s.base.rdFh.len <= |db.Data()|
    requires KeyReady(s.base.rdKey, s.base.rdFh, 0)
    modifies s.base`rdKey, db`inp
    ensures s.Valid() && db.Valid()
    ensures payload == Covered(old(db.Data())[..s.base.rdFh.len], s.base.rdFh)
    ensures db.Data() == old(db.Data())[s.base.rdFh.len..]
  {
    hide KeyReady, Masked, Rotated, Checker.Valid;
    RotatedNone(s.base.rdFh.key);
    var b := db.Take(s.base.rdFh.len);
    payload := Unmask(s.base, b, 0);
  }

  /** The text the checker holds after frame f has been read without a fault. */
  ghost function TextAfter(held: seq<u8>, f: Frame, st: State): seq<u8> {
    if IsControl(f.h.op) || st.op != TEXT then held else if f.h.fin then [] else held + f.payload
  }

  /** Is frame f, as much of it as there is, the one at which a text message turns out not to be
      UTF-8?  st is the state with f's header read. */
  ghost predicate BadFrame(held: seq<u8>, f: Frame, st: State) {
    !IsControl(f.h.op) && st.op == TEXT && TextBad(held + f.payload, f.h.fin && |f.payload| == f.h.len)
  }

  /** The stream does not hold a whole frame, nor anything that ends the connection. */
  ghost predicate RunsOut(d: seq<u8>, held: seq<u8>, st: State, cfg: Config) {
    && !Rejects(d, st, cfg) && (forall g: Frame :: g.Valid() ==> !(Wire(g) <= d))
    && forall g: Frame :: Front(g, d) && Admissible(g.h, st, cfg) ==> !BadFrame(held, g, Next(g.h, st))
  }

  lemma NoHeaderRunsOut(d: seq<u8>, held: seq<u8>, st: State, cfg: Config)
    requires (|d| < 2 || |d| < HeaderLength(d)) && !Rejects(d, st, cfg)
    ensures RunsOut(d, held, st, cfg)
  {
    hide Wire, Rejects, Admissible, BadFrame, Next;
    NoHeader(d);
  }

  lemma CutOffRunsOut(d: seq<u8>, f: Frame, held: seq<u8>, st: State, cfg: Config)
    requires |d| >= 2 && HeaderLength(d) <= |d| < HeaderLength(d) + f.h.len && Describes(d[..HeaderLength(d)], f.h)
    requires Admissible(f.h, st, cfg) && Front(f, d) && !BadFrame(held, f, Next(f.h, st))
    ensures RunsOut(d, held, st, cfg)
  {
    hide Wire, Rejects, Admissible, BadFrame, Next, Describes, HeaderLength, Front;
    NoPayload(d, f.h);
    AdmissibleNotRejected(d, f.h, st, cfg);
    forall g: Frame | Front(g, d) ensures g == f {
      OneFront(d, f, g);
    }
  }

  /** The payload of the frame whose header has been read. */
  method TakeAny(s: Stream, db: Streambuf) returns (bad: bool, short: bool, payload: seq<u8>)
    requires s.Valid() && db.Valid() && s.base.rdNeed == (if IsControl(s.base.rdFh.op) then 0 else s.base.rdFh.len)
    requires KeyReady(s.base.rdKey, s.base.rdFh, 0)
    modifies s.base`rdKey, s.base`rdNeed, s.check, db`inp
    ensures s.Valid() && db.Valid()
    ensures short <==> !bad && |old(db.Data())| < s.base.rdFh.len
    ensures var f := Frame(s.base.rdFh, Covered(UpTo(old(db.Data()), s.base.rdFh.len), s.base.rdFh));
      && (bad <==> BadFrame(old(s.check.Text()), f, s.base.St())) && (bad ==> s.check.Text() == [])
      && (!bad && !short ==>
            && payload == f.payload && s.base.rdNeed == 0 && db.Data() == old(db.Data())[s.base.rdFh.len..]
            && s.check.Text() == TextAfter(old(s.check.Text()), f, s.base.St()))
  {
    hide KeyReady, Covered, TextBad, Streambuf.Data, Checker.Text, Checker.Valid;
    bad, payload := false, [];
    if IsControl(s.base.rdFh.op) {
      short := db.Size() < s.base.rdFh.len;
      if !short {
        payload := TakeControl(s, db);
      }
    } else {
      bad, short, payload := TakePayload(s, db);
    }
  }

  /** One frame of a message, as read_frame() reads it: f is the frame the stream starts with, as
      much of it as there is. */
  method NextFrame(s: Stream, db: Streambuf) returns (o: Outcome, bad: bool, payload: seq<u8>, ghost f: Frame)
    requires s.Valid() && s.base.Valid() && db.Valid() && s.base.rdNeed == 0
    modifies s.base`rdFh, s.base`rdKey, s.base`rdSize, s.base`rdOpcode, s.base`rdNeed, s.base`rdCont, s.check, db`inp
    ensures s.Valid() && s.base.Valid() && db.Valid()
    ensures o.Done? ==>
      && Front(f, old(db.Data())) && f.h == s.base.rdFh
      && Admissible(f.h, old(s.base.St()), s.base.Cfg()) && s.base.St() == Next(f.h, old(s.base.St()))
      && (bad <==> BadFrame(old(s.check.Text()), f, s.base.St()))
    ensures o.Done? && !bad ==>
      && f.Valid() && s.base.rdNeed == 0 && payload == f.payload && old(db.Data()) == Wire(f) + db.Data()
      && s.check.Text() == TextAfter(old(s.check.Text()), f, s.base.St())
    ensures o.Done? && bad ==> s.check.Text() == []
    ensures o.Failed? ==> FailsWith(o.code, old(db.Data()), old(s.base.St()), s.base.Cfg())
    ensures o.Failed? ==> s.check.Text() == old(s.check.Text())
    ensures o.Eof? ==> RunsOut(old(db.Data()), old(s.check.Text()), old(s.base.St()), s.base.Cfg())
  {
    hide Describes, Admissible, Next, TwoCopies, HeaderLength, FailsWith, Rejects, Wire, Covered, Rotated, TextBad;
    hide Front, RunsOut, UpTo, BadFrame, TextAfter, KeyReady, Streambuf.Data, Checker.Text, Checker.Valid;
    ghost var d, held, st, cfg := db.Data(), s.check.Text(), s.base.St(), s.base.Cfg();
    bad, payload, f := false, [], Frame(s.base.rdFh, []);
    o := ReadHeader(s.base, db);
    if !o.Done? {
      if o.Eof? {
        NoHeaderRunsOut(d, held, st, cfg);
      }
      return;
    }
    ghost var rest, h := db.Data(), s.base.rdFh;
    f := Frame(h, Covered(UpTo(rest, h.len), h));
    FrontTaken(d, rest, h, f.payload);
    KeyAtStart(s.base.rdKey, h);
    var short;
    bad, short, payload := TakeAny(s, db);
    if short {
      CutOffRunsOut(d, f, held, st, cfg);
      o := Eof;
    } else if !bad {
      WireOf(d, h, f.payload);
    }
  }

  lemma KeyAtStart(wide: bv64, h: Header)
    requires h.mask ==> TwoCopies(wide, h.key)
    ensures KeyReady(wide, h, 0)
  {
    hide TwoCopies;
    RotatedNone(h.key);
  }

  lemma FrontTaken(d: seq<u8>, rest: seq<u8>, h: Header, payload: seq<u8>)
    requires |d| >= 2 && HeaderLength(d) <= |d| && Describes(d[..HeaderLength(d)], h)
    requires rest == d[HeaderLength(d)..] && payload == Covered(UpTo(rest, h.len), h)
    ensures Front(Frame(h, payload), d) && |payload| == |UpTo(rest, h.len)|
    ensures |UpTo(rest, h.len)| == if |rest| < h.len then |rest| else h.len
    ensures |rest| >= h.len ==> UpTo(rest, h.len) == rest[..h.len]
  {
    hide Covered, Describes, HeaderLength, Front;
    FrontOf(d, h, payload);
  }
}
