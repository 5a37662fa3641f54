/** What an endpoint does with octets: the examples of section 5.7 of RFC 6455 as read() takes them,
    and a frame for each of the close codes it sends. */
module ReadExamples {
  import opened Bytes
  import opened Masking
  import opened Endian
  import opened FrameHeader
  import opened Protocol
  import opened StaticStreambuf
  import opened StreamBase
  import opened Receive
  import opened ControlFrames
  import opened TextMessages
  import opened Utf8Spec
  import opened Utf8Checker
  import Utf8Automaton
  import opened Replies
  import opened FrameReader
  import opened WholeMessages
  import opened MessageReader
  import opened ReadResults
  import opened Closing
  import opened FrameExamples

  lemma {:induction false} Ascii(s: seq<u8>)
    requires forall i :: 0 <= i < |s| ==> s[i] < 0x80
    ensures Utf8Octets(s)
    decreases |s|
  {
    if s != [] {
      Ascii(s[1..]);
      assert Utf8Char(s[..1]);
    }
  }

  lemma SentOne(f: Frame, st: State, cfg: Config)
    requires f.Valid() && Admissible(f.h, st, cfg) && Final(f)
    ensures Sent([f], [], Wire(f), st, cfg)
    ensures After(Headers([f]), st) == Next(f.h, st) && DataOf([f]) == f.payload
  {
    hide Wire, Admissible, Next, Accepted, After;
    SendableNone(st, cfg);
    SendableAppend([], f, st, cfg);
    assert [] + [f] == [f];
    WireAllAppend([], f);
    NoFrames();
    assert [] + Wire(f) + [] == Wire(f);
    DataOfOne(f);
  }

  lemma SentTwo(f: Frame, g: Frame, st: State, cfg: Config)
    requires f.Valid() && Admissible(f.h, st, cfg) && Middle(f)
    requires g.Valid() && Admissible(g.h, Next(f.h, st), cfg) && Final(g)
    ensures Sent([f, g], [], Wire(f) + Wire(g), st, cfg)
    ensures After(Headers([f, g]), st) == Next(g.h, Next(f.h, st)) && DataOf([f, g]) == DataIn(f) + g.payload
  {
    hide Wire, Admissible, Next, Accepted, After, Middle;
    SendableNone(st, cfg);
    SendableAppend([], f, st, cfg);
    assert [] + [f] == [f] && [f] + [g] == [f, g];
    SendableAppend([f], g, st, cfg);
    WireAllAppend([], f);
    WireAllAppend([f], g);
    NoFrames();
    assert [] + Wire(f) + Wire(g) + [] == Wire(f) + Wire(g);
    DataOfOne(f);
    DataOfOne(g);
    DataOfAppend([f], [g]);
  }

  /** The frames are those of the text "Hello" to an endpoint of this role, whatever the last
      message was. */
  ghost predicate SaysHello(sent: seq<Frame>, octets: seq<u8>, role: Role) {
    && DataOf(sent) == HELLO
    && forall st: State :: !st.cont ==>
      Sent(sent, [], octets, st, Config(role, 0x100_0000)) && After(Headers(sent), st).op == 1
  }

  lemma HelloInOne(f: Frame, role: Role)
    requires f == if role.Client? then Plain(1, true, HELLO) else Veiled(1, true, HELLO)
    ensures SaysHello([f], Wire(f), role)
  {
    hide Wire, Sent;
    forall st: State | !st.cont
      ensures Sent([f], [], Wire(f), st, Config(role, 0x100_0000)) && After(Headers([f]), st).op == 1
    {
      SentOne(f, st, Config(role, 0x100_0000));
    }
    DataOfOne(f);
  }

  /** The same for two frames, the first of them a ping or the beginning of the text. */
  lemma HelloInTwo(f: Frame, g: Frame, role: Role)
    requires f.Valid() && Middle(f) && g.Valid() && Final(g) && DataIn(f) + g.payload == HELLO
    requires forall st: State :: !st.cont ==>
      var cfg, next := Config(role, 0x100_0000), Next(f.h, st);
      Admissible(f.h, st, cfg) && Admissible(g.h, next, cfg) && Next(g.h, next).op == 1
    ensures SaysHello([f, g], Wire(f) + Wire(g), role)
  {
    hide Wire, Sent, Admissible, Next;
    forall st: State | !st.cont
      ensures Sent([f, g], [], Wire(f) + Wire(g), st, Config(role, 0x100_0000))
      ensures After(Headers([f, g]), st).op == 1
    {
      SentTwo(f, g, st, Config(role, 0x100_0000));
    }
    DataOfOne(f);
    DataOfOne(g);
    DataOfAppend([f], [g]);
    assert [f] + [g] == [f, g];
  }

  lemma Fragments()
    ensures var f, g := Plain(1, false, [0x48, 0x65, 0x6C]), Plain(0, true, [0x6C, 0x6F]);
      SaysHello([f, g], Wire(f) + Wire(g), Client)
  {
    hide Wire, SaysHello;
    HelloInTwo(Plain(1, false, [0x48, 0x65, 0x6C]), Plain(0, true, [0x6C, 0x6F]), Client);
  }

  lemma HelloAfterPing()
    ensures var f, g := Veiled(9, true, HELLO), Veiled(1, true, HELLO);
      SaysHello([f, g], Wire(f) + Wire(g), Server) && Pings([f]) == [HELLO]
  {
    hide Wire, SaysHello;
    var f := Veiled(9, true, HELLO);
    assert [] + HELLO == HELLO;
    HelloInTwo(f, Veiled(1, true, HELLO), Server);
    assert [f][..0] == [];
  }

  /** A new stream reads the octets. */
  method Hear(role: Role, octets: seq<u8>, ghost sent: seq<Frame>)
    returns (r: Result, payload: seq<u8>, wrote: seq<u8>, ghost pongs: seq<Frame>)
    requires sent != [] && SaysHello(sent, octets, role)
    ensures r == Message(1) && payload == HELLO
    ensures Answered(pongs, sent[..|sent| - 1], role)
    ensures (forall i :: 0 <= i < |pongs| ==> pongs[i].h.Valid()) && wrote == WireAll(pongs)
  {
    hide Sent, WireAll, After, DataOf, Answered, SentBy, EndsAfter, Delivers, ClosesWith;
    hide Streambuf.Data, Checker.Text, Checker.Valid, Utf8Octets, ClosePayload;
    var s := new Stream();
    s.Open(role);
    var db := OnTheWire(octets);
    assert [] + HELLO == HELLO;
    Ascii(HELLO);
    ghost var fs, f, closing;
    r, payload, wrote, fs, f, pongs, closing := ReadMessage(s, db, sent, []);
    assert fs == sent[..|sent| - 1];
    NoFrames();
    assert WireAll(pongs) + [] == WireAll(pongs);
  }

  /** The octets 81 05 ... and 01 03 ... 80 02 ... to a client, and 81 85 ... to a server. */
  method ReadHello(role: Role, octets: seq<u8>) returns (r: Result, payload: seq<u8>, wrote: seq<u8>)
    requires if role.Server? then
        octets == [0x81, 0x85, 0x37, 0xFA, 0x21, 0x3D, 0x7F, 0x9F, 0x4D, 0x51, 0x58]
      else
        || octets == [0x81, 0x05, 0x48, 0x65, 0x6C, 0x6C, 0x6F]
        || octets == [0x01, 0x03, 0x48, 0x65, 0x6C, 0x80, 0x02, 0x6C, 0x6F]
    ensures r == Message(1) && payload == [0x48, 0x65, 0x6C, 0x6C, 0x6F] && wrote == []
  {
    hide Wire, WireAll, SaysHello, Plain, Veiled;
    SectionFiveSeven();
    ghost var sent;
    if |octets| == 9 {
      Fragments();
      assert octets == [0x01, 0x03, 0x48, 0x65, 0x6C] + [0x80, 0x02, 0x6C, 0x6F];
      sent := [Plain(1, false, [0x48, 0x65, 0x6C]), Plain(0, true, [0x6C, 0x6F])];
    } else {
      ghost var f := if role.Client? then Plain(1, true, HELLO) else Veiled(1, true, HELLO);
      HelloInOne(f, role);
      sent := [f];
    }
    ghost var pongs;
    r, payload, wrote, pongs := Hear(role, octets, sent);
    NoPings(sent[..|sent| - 1]);
    NoFrames();
  }

  lemma NoPings(fs: seq<Frame>)
    requires fs == [] || fs == [Plain(1, false, [0x48, 0x65, 0x6C])]
    ensures Pings(fs) == []
  {
  }

  /** A ping in front of the text is answered with 8a 05 ... */
  method AnswerPing() returns (r: Result, payload: seq<u8>, wrote: seq<u8>)
    ensures r == Message(1) && payload == [0x48, 0x65, 0x6C, 0x6C, 0x6F]
    ensures wrote == [0x8A, 0x05, 0x48, 0x65, 0x6C, 0x6C, 0x6F]
  {
    hide Wire, WireAll, SaysHello, Veiled;
    SectionFiveSeven();
    HelloAfterPing();
    ghost var f, g := Veiled(9, true, HELLO), Veiled(1, true, HELLO);
    var octets := [0x89, 0x85, 0x37, 0xFA, 0x21, 0x3D, 0x7F, 0x9F, 0x4D, 0x51, 0x58]
                  + [0x81, 0x85, 0x37, 0xFA, 0x21, 0x3D, 0x7F, 0x9F, 0x4D, 0x51, 0x58];
    ghost var pongs;
    r, payload, wrote, pongs := Hear(Server, octets, [f, g]);
    assert [f, g][..1] == [f];
    assert pongs == [Plain(10, true, HELLO)];
    WireAllAppend([], pongs[0]);
    NoFrames();
    assert [] + [pongs[0]] == pongs && [] + Wire(pongs[0]) == Wire(pongs[0]);
  }

  // ---- Connections that end ----

  /** The first frame ends the connection, whatever the last message was. */
  ghost predicate EndsAtOnce(r: Result, f: Frame, octets: seq<u8>, max: nat) {
    forall st: State :: !st.cont ==> EndsAfter(r, f, [], octets, [], st, Config(Server, max))
  }

  lemma AtOnce(r: Result, f: Frame, d: seq<u8>, st: State, cfg: Config)
    requires !st.cont && Ends(r, f, d, [], st, cfg)
    ensures EndsAfter(r, f, [], d, [], st, cfg)
  {
    hide Ends, Utf8Octets;
    SendableNone(st, cfg);
    NoFrames();
    NothingSoFar([], st);
    EmptyIsUtf8();
    CompleteIsCompletable([]);
    assert d[0..] == d;
  }

  /** Opcode 11 is reserved. */
  lemma ReservedOpcode(f: Frame, max: nat)
    ensures EndsAtOnce(Failure(1002), f, [0x8B, 0x80, 0x37, 0xFA, 0x21, 0x3D], max)
  {
    hide EndsAfter, Hopeless, TooBig, Val;
    var d := [0x8B, 0x80, 0x37, 0xFA, 0x21, 0x3D];
    LowBits(0x0B);
    Eleven();
    forall st: State | !st.cont ensures EndsAfter(Failure(1002), f, [], d, [], st, Config(Server, max)) {
      HeaderFixed(d, 0, st, Config(Server, max));
      AtOnce(Failure(1002), f, d, st, Config(Server, max));
    }
  }

  lemma Eleven()
    ensures Val(11) == 11
  {
  }

  /** Five octets where four are allowed. */
  lemma FiveOctets(max: nat)
    requires 0 < max < 5
    ensures var f := Veiled(1, true, HELLO); EndsAtOnce(Failure(1009), f, Wire(f), max)
  {
    hide EndsAfter, Hopeless, TooBig, Describes, Print, Minimal, FullLength, Fixed, Whole, HeaderLength;
    var f := Veiled(1, true, HELLO);
    var d := Wire(f);
    WireStarts(d, f);
    DescribedIsRead(d, |Print(f.h)|, f.h, 0);
    forall st: State | !st.cont ensures EndsAfter(Failure(1009), f, [], d, [], st, Config(Server, max)) {
      DescribedIsRead(d, |Print(f.h)|, f.h, 0);
      HeaderWhole(d, 0, st, Config(Server, max));
      AtOnce(Failure(1009), f, d, st, Config(Server, max));
    }
  }

  /** The octet ff is never part of a text. */
  lemma NoText(max: nat)
    requires max == 0 || max >= 1
    ensures var f := Veiled(1, true, [0xFF]); EndsAtOnce(BadPayload, f, Wire(f), max)
  {
    hide EndsAfter, Wire;
    var f := Veiled(1, true, [0xFF]);
    WholeIsFront(f, Wire(f));
    assert [] + f.payload == f.payload;
    forall st: State | !st.cont ensures EndsAfter(BadPayload, f, [], Wire(f), [], st, Config(Server, max)) {
      AtOnce(BadPayload, f, Wire(f), st, Config(Server, max));
    }
  }

  /** A close frame with code 1001. */
  lemma GoingAway(max: nat)
    ensures var f := Veiled(8, true, [0x03, 0xE9]); EndsAtOnce(Closed(CloseReason(1001, [])), f, Wire(f), max)
  {
    hide EndsAfter, Wire, ClosePayload, Utf8Octets, Val;
    var f, cr := Veiled(8, true, [0x03, 0xE9]), CloseReason(1001, []);
    CodeInOctets();
    EmptyIsUtf8();
    CompleteIsCompletable([]);
    forall st: State | !st.cont ensures EndsAfter(Closed(cr), f, [], Wire(f), [], st, Config(Server, max)) {
      CloseEnds(f, cr, Client, [], st, max);
    }
  }

  lemma CodeInOctets()
    ensures ClosePayload(CloseReason(1001, [])) == [0x03, 0xE9]
  {
    hide ClosePayload;
    CodeOctets(0x03, 0xE9, 1001);
  }

  lemma ClosingOctets(gs: seq<Frame>, hi: u8, lo: u8)
    requires |gs| == 1 && ControlBy(gs[0], CLOSE, [hi, lo], Server)
    ensures gs[0].h.Valid() && WireAll(gs) == [0x88, 0x02, hi, lo]
  {
    hide Wire, Val;
    Digits();
    PlainWire(8, true, 2, [hi, lo]);
    WireAllAppend([], gs[0]);
    NoFrames();
    assert [] + [gs[0]] == gs && gs[0] == Plain(8, true, [hi, lo]) && [] + Wire(gs[0]) == Wire(gs[0]);
  }

  /** A new server with this limit on message sizes reads the octets. */
  method HearTheEnd(max: nat, octets: seq<u8>, ghost want: Result, ghost f: Frame, ghost hi: u8, ghost lo: u8)
    returns (r: Result, wrote: seq<u8>)
    requires max < TWO_64 && EndsAtOnce(want, f, octets, max) && (want.BadPayload? || want.Failure? || want.Closed?)
    requires ClosePayload(CloseReason(ReplyCode(want), [])) == [hi, lo]
    ensures r == want && wrote == [0x88, 0x02, hi, lo]
  {
    hide Sent, WireAll, After, DataOf, EndsAfter, Delivers, ClosesWith, ControlBy;
    hide Streambuf.Data, Checker.Text, Checker.Valid, Utf8Octets, ClosePayload;
    var s := new Stream();
    s.Open(Server);
    s.base.rdMsgMax := max;
    var db := OnTheWire(octets);
    ghost var st := s.base.St();
    ghost var fs, g, pongs, closing;
    var payload;
    r, payload, wrote, fs, g, pongs, closing := ReadMessage(s, db, [], []);
    OneResult(r, g, fs, want, f, [], octets, [], st, Config(Server, max));
    ClosingOctets(closing, hi, lo);
    NothingToAnswer(Server);
    NoFrames();
    assert pongs == [] && [] + WireAll(closing) == WireAll(closing);
  }

  /** What a server answers to a reserved opcode, to a text of five octets where four are allowed,
      to a text that is no text, and to a close frame with code 1001. */
  method FourEndings() returns (reserved: Result, long: Result, bad: Result, away: Result, wrote: seq<seq<u8>>)
    ensures reserved == Failure(1002) && long == Failure(1009) && bad == BadPayload
    ensures away == Closed(CloseReason(1001, []))
    ensures wrote == [[0x88, 0x02, 0x03, 0xEA], [0x88, 0x02, 0x03, 0xF1], [0x88, 0x02, 0x03, 0xEF],
                      [0x88, 0x02, 0x03, 0xE9]]
  {
    hide EndsAtOnce, Wire, Veiled, ClosePayload;
    SectionFiveSeven();
    OtherOctets();
    CodesInOctets();
    CodeInOctets();
    var w, x, y, z;
    ghost var f := Veiled(1, true, HELLO);
    ReservedOpcode(f, 0);
    reserved, w := HearTheEnd(0, [0x8B, 0x80, 0x37, 0xFA, 0x21, 0x3D], Failure(1002), f, 0x03, 0xEA);
    FiveOctets(4);
    long, x := HearTheEnd(4, [0x81, 0x85, 0x37, 0xFA, 0x21, 0x3D, 0x7F, 0x9F, 0x4D, 0x51, 0x58], Failure(1009), f,
                          0x03, 0xF1);
    f := Veiled(1, true, [0xFF]);
    NoText(0);
    bad, y := HearTheEnd(0, [0x81, 0x81, 0x37, 0xFA, 0x21, 0x3D, 0xC8], BadPayload, f, 0x03, 0xEF);
    f := Veiled(8, true, [0x03, 0xE9]);
    GoingAway(0);
    away, z := HearTheEnd(0, [0x88, 0x82, 0x37, 0xFA, 0x21, 0x3D, 0x34, 0x13], Closed(CloseReason(1001, [])), f,
                          0x03, 0xE9);
    wrote := [w, x, y, z];
  }

  lemma OtherOctets()
    ensures Wire(Veiled(1, true, [0xFF])) == [0x81, 0x81, 0x37, 0xFA, 0x21, 0x3D, 0xC8]
    ensures Wire(Veiled(8, true, [0x03, 0xE9])) == [0x88, 0x82, 0x37, 0xFA, 0x21, 0x3D, 0x34, 0x13]
  {
    hide Val, Wire, Veiled;
    Digits();
    MaskedOthers();
    VeiledWire(1, true, 1, [0xFF]);
    VeiledWire(8, true, 2, [0x03, 0xE9]);
  }

  lemma MaskedOthers()
    ensures Masked([0xFF], KEY) == [0xC8] && Masked([0x03, 0xE9], KEY) == [0x34, 0x13]
  {
    hide KeyOctet;
    KeyOctets();
  }
}
