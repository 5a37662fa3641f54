/** What the HTTP parser hands to its message: the callbacks of include/beast/http/parser_v1.hpp,
    called through the size checks of include/beast/http/basic_parser_v1.hpp. */
module HeaderFields {
  import opened Bytes
  import opened Rfc7230

  /** The callbacks; the parser calls them with whatever pieces its input comes in. */
  datatype Event = Method(s: text) | Uri(s: text) | Reason(s: text) | Field(s: text) | Value(s: text)
                 | Headers | Body(s: text)

  /** The strings of parser_v1, the pairs handed to headers.insert(), and the body. */
  datatype State = State(verb: text, uri: text, reason: text, field: text, value: text, flush: bool,
                         inserted: seq<(text, text)>, body: text)

  const START := State([], [], [], [], [], false, [], [])

  function Flushed(st: State): State {
    if st.flush then st.(flush := false, inserted := st.inserted + [(st.field, st.value)], field := [], value := [])
    else st
  }

  function Step(st: State, e: Event): State {
    match e
    case Method(s) => st.(verb := st.verb + s)
    case Uri(s) => st.(uri := st.uri + s)
    case Reason(s) => st.(reason := st.reason + s)
    case Field(s) => Flushed(st).(field := Flushed(st).field + s)
    case Value(s) => st.(value := st.value + s, flush := true)
    case Headers => Flushed(st)
    case Body(s) => st.(body := st.body + s)
  }

  function Run(st: State, es: seq<Event>): State {
    if es == [] then st else Step(Run(st, es[..|es| - 1]), es[|es| - 1])
  }

  lemma {:induction false} RunAppend(st: State, es: seq<Event>, fs: seq<Event>)
    ensures Run(st, es + fs) == Run(Run(st, es), fs)
    decreases |fs|
  {
    hide Step;
    if fs == [] {
      assert es + fs == es;
    } else {
      var n := |fs| - 1;
      RunAppend(st, es, fs[..n]);
      assert (es + fs)[..|es| + n] == es + fs[..n];
    }
  }

  // ---- Reassembly ----

  /** A header field as it comes: its name and its value, each in one or more pieces. */
  datatype Pieces = Pieces(names: seq<text>, values: seq<text>) {
    predicate Valid() { names != [] && values != [] && Concat(names) != [] }

    function Pair(): (text, text) { (Concat(names), Concat(values)) }

    function Events(): seq<Event> { FieldEvents(names) + ValueEvents(values) }
  }

  function FieldEvents(ss: seq<text>): seq<Event> {
    seq(|ss|, i requires 0 <= i < |ss| => Field(ss[i]))
  }

  function ValueEvents(ss: seq<text>): seq<Event> {
    seq(|ss|, i requires 0 <= i < |ss| => Value(ss[i]))
  }

  function AllEvents(ps: seq<Pieces>): seq<Event> {
    if ps == [] then [] else AllEvents(ps[..|ps| - 1]) + ps[|ps| - 1].Events()
  }

  function Pairs(ps: seq<Pieces>): (r: seq<(text, text)>)
    ensures |r| == |ps|
  {
    seq(|ps|, i requires 0 <= i < |ps| => ps[i].Pair())
  }

  /** Name pieces after the first go on with the name. */
  lemma {:induction false} RunNames(st: State, names: seq<text>)
    requires names != []
    ensures Run(st, FieldEvents(names)) == Flushed(st).(field := Flushed(st).field + Concat(names))
    decreases |names|
  {
    var n := |names| - 1;
    assert FieldEvents(names)[..n] == FieldEvents(names[..n]);
    if n == 0 {
      assert names[..n] == [] && FieldEvents([]) == [];
      assert [] + names[0] == names[0];
    } else {
      RunNames(st, names[..n]);
      Assoc(Flushed(st).field, Concat(names[..n]), names[n]);
    }
  }

  lemma {:induction false} RunValues(st: State, values: seq<text>)
    requires values != []
    ensures Run(st, ValueEvents(values)) == st.(value := st.value + Concat(values), flush := true)
    decreases |values|
  {
    var n := |values| - 1;
    assert ValueEvents(values)[..n] == ValueEvents(values[..n]);
    if n == 0 {
      assert values[..n] == [] && ValueEvents([]) == [];
      assert [] + values[0] == values[0];
    } else {
      RunValues(st, values[..n]);
      Assoc(st.value, Concat(values[..n]), values[n]);
    }
  }

  /** A whole field: what was held is inserted, and the field is held. */
  lemma RunField(st: State, p: Pieces)
    requires p.Valid() && Flushed(st).field == [] && Flushed(st).value == []
    ensures Run(st, p.Events()) == Flushed(st).(field := p.Pair().0, value := p.Pair().1, flush := true)
  {
    hide Concat;
    RunAppend(st, FieldEvents(p.names), ValueEvents(p.values));
    RunNames(st, p.names);
    var named := Run(st, FieldEvents(p.names));
    RunValues(named, p.values);
    assert [] + Concat(p.names) == Concat(p.names) && [] + Concat(p.values) == Concat(p.values);
  }

  /** After any number of fields all but the last have been inserted, and the last one is held. */
  lemma {:induction false} RunFields(st: State, ps: seq<Pieces>)
    requires forall i :: 0 <= i < |ps| ==> ps[i].Valid()
    requires !st.flush && st.field == [] && st.value == []
    ensures Flushed(Run(st, AllEvents(ps))) == st.(inserted := st.inserted + Pairs(ps))
    ensures ps != [] ==>
      var n := |ps| - 1;
      Run(st, AllEvents(ps)) == st.(inserted := st.inserted + Pairs(ps[..n]), field := ps[n].Pair().0,
                                    value := ps[n].Pair().1, flush := true)
    decreases |ps|
  {
    hide Run, Pieces.Pair, Pieces.Events, Pieces.Valid;
    if ps == [] {
      RunNothing(st);
      assert st.inserted + Pairs([]) == st.inserted;
    } else {
      var n := |ps| - 1;
      var p, before := ps[n], ps[..n];
      RunFields(st, before);
      RunAppend(st, AllEvents(before), p.Events());
      RunField(Run(st, AllEvents(before)), p);
      assert Pairs(ps) == Pairs(before) + [p.Pair()];
      Assoc(st.inserted, Pairs(before), [p.Pair()]);
    }
  }

  lemma RunNothing(st: State)
    ensures Run(st, []) == st
  {
  }

  /** However names and values are cut into pieces, on_headers() leaves the fields inserted in
      order, each put together again. */
  lemma Reassembled(ps: seq<Pieces>)
    requires forall i :: 0 <= i < |ps| ==> ps[i].Valid()
    ensures Run(START, AllEvents(ps) + [Headers]) == START.(inserted := Pairs(ps))
  {
    hide AllEvents, Pairs;
    RunFields(START, ps);
    RunAppend(START, AllEvents(ps), [Headers]);
    RunOne(Run(START, AllEvents(ps)), Headers);
    assert [] + Pairs(ps) == Pairs(ps);
  }

  lemma RunOne(st: State, e: Event)
    ensures Run(st, [e]) == Step(st, e)
  {
    assert [e][..0] == [];
  }

  /** Fields that come after on_headers(), those of a chunked body's trailer, are inserted too,
      but never the last of them: on_complete() does not flush. */
  lemma TrailerLosesLast(ps: seq<Pieces>, trailer: seq<Pieces>)
    requires forall i :: 0 <= i < |ps| ==> ps[i].Valid()
    requires trailer != [] && forall i :: 0 <= i < |trailer| ==> trailer[i].Valid()
    ensures Run(START, AllEvents(ps) + [Headers] + AllEvents(trailer)).inserted
            == Pairs(ps) + Pairs(trailer[..|trailer| - 1])
  {
    hide AllEvents, Pairs;
    Reassembled(ps);
    RunAppend(START, AllEvents(ps) + [Headers], AllEvents(trailer));
    RunFields(START.(inserted := Pairs(ps)), trailer);
  }

  // ---- The strings ----

  datatype Kind = OfMethod | OfUri | OfReason | OfField | OfValue | OfBody

  predicate IsOf(e: Event, k: Kind) {
    match k
    case OfMethod => e.Method?
    case OfUri => e.Uri?
    case OfReason => e.Reason?
    case OfField => e.Field?
    case OfValue => e.Value?
    case OfBody => e.Body?
  }

  /** The pieces of one kind, in order. */
  function Strings(es: seq<Event>, k: Kind): seq<text> {
    if es == [] then []
    else
      var n := |es| - 1;
      Strings(es[..n], k) + (if IsOf(es[n], k) then [es[n].s] else [])
  }

  /** All the octets of one kind. */
  function Text(es: seq<Event>, k: Kind): text { Concat(Strings(es, k)) }

  lemma TextMore(es: seq<Event>, e: Event, k: Kind)
    ensures Text(es + [e], k) == Text(es, k) + (if IsOf(e, k) then e.s else [])
  {
    assert (es + [e])[..|es|] == es;
    if IsOf(e, k) {
      var ss := Strings(es, k);
      assert (ss + [e.s])[..|ss|] == ss;
    } else {
      assert Strings(es, k) + [] == Strings(es, k) && Text(es, k) + [] == Text(es, k);
    }
  }

  /** What is stored of the strings is what came in callbacks of their kind. */
  lemma {:induction false} RunText(es: seq<Event>)
    ensures var st := Run(START, es);
      && st.verb == Text(es, OfMethod) && st.uri == Text(es, OfUri) && st.reason == Text(es, OfReason)
      && st.body == Text(es, OfBody)
    decreases |es|
  {
    hide Text;
    if es == [] {
      NoText();
    } else {
      var n := |es| - 1;
      var e := es[n];
      RunText(es[..n]);
      assert es == es[..n] + [e];
      TextMore(es[..n], e, OfMethod);
      TextMore(es[..n], e, OfUri);
      TextMore(es[..n], e, OfReason);
      TextMore(es[..n], e, OfBody);
      StepText(Run(START, es[..n]), e);
    }
  }

  lemma NoText()
    ensures forall k :: Text([], k) == []
  {
  }

  lemma StepText(st: State, e: Event)
    ensures var next := Step(st, e);
      && next.verb == st.verb + (if e.Method? then e.s else [])
      && next.uri == st.uri + (if e.Uri? then e.s else [])
      && next.reason == st.reason + (if e.Reason? then e.s else [])
      && next.body == st.body + (if e.Body? then e.s else [])
  {
    assert st.verb + [] == st.verb && st.uri + [] == st.uri && st.reason + [] == st.reason && st.body + [] == st.body;
  }

  /** Nothing but Field(), Value() and Headers moves the fields. */
  lemma {:induction false} FieldsAlone(st: State, es: seq<Event>)
    requires forall i :: 0 <= i < |es| ==> !es[i].Field? && !es[i].Value? && !es[i].Headers?
    ensures var to := Run(st, es);
      to == st.(verb := to.verb, uri := to.uri, reason := to.reason, body := to.body)
    decreases |es|
  {
    if es != [] {
      FieldsAlone(st, es[..|es| - 1]);
    }
  }

  /** A message: whatever comes of the start line, then the fields, then the body. */
  lemma MessageParsed(line: seq<Event>, ps: seq<Pieces>, body: seq<Event>)
    requires forall i :: 0 <= i < |line| ==> line[i].Method? || line[i].Uri? || line[i].Reason?
    requires forall i :: 0 <= i < |ps| ==> ps[i].Valid()
    requires forall i :: 0 <= i < |body| ==> body[i].Body?
    ensures var st := Run(START, line + AllEvents(ps) + [Headers] + body);
      && st.inserted == Pairs(ps) && !st.flush && st.field == [] && st.value == []
  {
    hide AllEvents, Pairs, Run, Pieces.Valid;
    FieldsAlone(START, line);
    var st := Run(START, line);
    RunAppend(START, line, AllEvents(ps));
    RunFields(st, ps);
    RunAppend(START, line + AllEvents(ps), [Headers]);
    RunOne(Run(START, line + AllEvents(ps)), Headers);
    RunAppend(START, line + AllEvents(ps) + [Headers], body);
    FieldsAlone(Run(START, line + AllEvents(ps) + [Headers]), body);
    assert [] + Pairs(ps) == Pairs(ps);
  }

  // ---- Budgets ----

  /** Does the event count against the headers limit?  call_on_method() and call_on_uri() do
      nothing for responses, call_on_reason() nothing for requests. */
  predicate Counted(e: Event) { e.Method? || e.Uri? || e.Reason? || e.Field? || e.Value? }

  predicate Delivered(e: Event, isRequest: bool) {
    match e
    case Method(_) => isRequest
    case Uri(_) => isRequest
    case Reason(_) => !isRequest
    case _ => true
  }

  function Heard(es: seq<Event>, isRequest: bool): seq<Event> {
    if es == [] then []
    else
      var n := |es| - 1;
      Heard(es[..n], isRequest) + (if Delivered(es[n], isRequest) then [es[n]] else [])
  }

  /** A request has no reason; a response has no method and no URI. */
  predicate Has(isRequest: bool, k: Kind) {
    k.OfField? || k.OfValue? || k.OfBody? || (if isRequest then k.OfMethod? || k.OfUri? else k.OfReason?)
  }

  lemma {:induction false} HeardText(es: seq<Event>, isRequest: bool, k: Kind)
    ensures Text(Heard(es, isRequest), k) == if Has(isRequest, k) then Text(es, k) else []
    decreases |es|
  {
    hide Text;
    if es == [] {
      NoText();
    } else {
      var n := |es| - 1;
      var e := es[n];
      HeardText(es[..n], isRequest, k);
      assert es == es[..n] + [e];
      TextMore(es[..n], e, k);
      TextMore(Heard(es[..n], isRequest), e, k);
      assert Text(es[..n], k) + [] == Text(es[..n], k) && Heard(es[..n], isRequest) + [] == Heard(es[..n], isRequest);
    }
  }

  /** Do two states agree, the strings of the start line aside? */
  predicate Alike(a: State, b: State) {
    b == a.(verb := b.verb, uri := b.uri, reason := b.reason)
  }

  lemma AlikeItself()
    ensures Alike(START, START)
  {
  }

  lemma StepAlike(a: State, b: State, e: Event, isRequest: bool)
    requires Alike(a, b)
    ensures Alike(Step(a, e), if Delivered(e, isRequest) then Step(b, e) else b)
  {
  }

  /** The strings aside, what is not delivered makes no difference. */
  lemma {:induction false} HeardRun(es: seq<Event>, isRequest: bool)
    ensures Alike(Run(START, es), Run(START, Heard(es, isRequest)))
    decreases |es|
  {
    hide Step, Alike, Delivered;
    if es == [] {
      AlikeItself();
    } else {
      var n := |es| - 1;
      var hs := Heard(es[..n], isRequest);
      HeardRun(es[..n], isRequest);
      StepAlike(Run(START, es[..n]), Run(START, hs), es[n], isRequest);
      assert (hs + [es[n]])[..|hs|] == hs && hs + [] == hs;
    }
  }

  function HeaderCost(es: seq<Event>): nat {
    if es == [] then 0
    else
      var n := |es| - 1;
      HeaderCost(es[..n]) + (if Counted(es[n]) then |es[n].s| else 0)
  }

  function BodyCost(es: seq<Event>): nat {
    if es == [] then 0
    else
      var n := |es| - 1;
      BodyCost(es[..n]) + (if es[n].Body? then |es[n].s| else 0)
  }

  lemma {:induction false} CostText(es: seq<Event>)
    ensures HeaderCost(es) == |Text(es, OfMethod)| + |Text(es, OfUri)| + |Text(es, OfReason)|
                              + |Text(es, OfField)| + |Text(es, OfValue)|
    ensures BodyCost(es) == |Text(es, OfBody)|
    decreases |es|
  {
    hide Text;
    if es == [] {
      NoText();
    } else {
      var n := |es| - 1;
      CostText(es[..n]);
      assert es == es[..n] + [es[n]];
      forall k {
        TextMore(es[..n], es[n], k);
      }
    }
  }

  /** The size of the header of a message. */
  function HeaderSize(es: seq<Event>, isRequest: bool): nat {
    (if isRequest then |Text(es, OfMethod)| + |Text(es, OfUri)| else |Text(es, OfReason)|)
    + |Text(es, OfField)| + |Text(es, OfValue)|
  }

  lemma HeardCost(es: seq<Event>, isRequest: bool)
    ensures HeaderCost(Heard(es, isRequest)) == HeaderSize(es, isRequest)
    ensures BodyCost(Heard(es, isRequest)) == |Text(es, OfBody)|
  {
    hide Text, Heard, HeaderCost, BodyCost;
    CostText(Heard(es, isRequest));
    forall k {
      HeardText(es, isRequest, k);
    }
  }

  /** What a parser keeps of a message. */
  lemma HeardState(es: seq<Event>, isRequest: bool)
    ensures Run(START, Heard(es, isRequest))
      == Run(START, es).(verb := if isRequest then Text(es, OfMethod) else [],
                         uri := if isRequest then Text(es, OfUri) else [],
                         reason := if isRequest then [] else Text(es, OfReason))
  {
    hide Text, Heard, Run;
    HeardRun(es, isRequest);
    RunText(Heard(es, isRequest));
    forall k {
      HeardText(es, isRequest, k);
    }
  }

  function PairsSize(ps: seq<(text, text)>): nat {
    if ps == [] then 0
    else
      var n := |ps| - 1;
      PairsSize(ps[..n]) + |ps[n].0| + |ps[n].1|
  }

  /** All that is stored of the headers. */
  function Stored(st: State): nat {
    |st.verb| + |st.uri| + |st.reason| + |st.field| + |st.value| + PairsSize(st.inserted)
  }

  lemma StoredStep(st: State, e: Event)
    ensures Stored(Step(st, e)) == Stored(st) + (if Counted(e) then |e.s| else 0)
    ensures |Step(st, e).body| == |st.body| + (if e.Body? then |e.s| else 0)
  {
    var ps, p := st.inserted, (st.field, st.value);
    assert (ps + [p])[..|ps|] == ps;
  }

  /** Nothing is stored but what was delivered, and nothing of it is lost. */
  lemma {:induction false} StoredRun(st: State, es: seq<Event>)
    ensures Stored(Run(st, es)) == Stored(st) + HeaderCost(es)
    ensures |Run(st, es).body| == |st.body| + BodyCost(es)
    decreases |es|
  {
    hide Step, Stored, Counted;
    if es != [] {
      var n := |es| - 1;
      StoredRun(st, es[..n]);
      StoredStep(Run(st, es[..n]), es[n]);
    }
  }

  /** parser_v1 */
  class ParserV1 {
    var verb: text
    var uri: text
    var reason: text
    var field: text
    var value: text
    var flush: bool
    var inserted: seq<(text, text)>
    var body: text

    ghost function St(): State
      reads this
    {
      State(verb, uri, reason, field, value, flush, inserted, body)
    }

    constructor ()
      ensures St() == START
    {
      verb, uri, reason, field, value, flush, inserted, body := [], [], [], [], [], false, [], [];
    }

    method Flush()
      modifies this
      ensures St() == Flushed(old(St()))
    {
      if !flush {
        return;
      }
      flush := false;
      inserted := inserted + [(field, value)];
      field := [];
      value := [];
    }

    /** on_method(), on_uri(), on_reason(), on_field(), on_value(), on_headers() and on_body() */
    method On(e: Event)
      modifies this
      ensures St() == Step(old(St()), e)
    {
      match e
      case Method(s) => verb := verb + s;
      case Uri(s) => uri := uri + s;
      case Reason(s) => reason := reason + s;
      case Field(s) =>
        Flush();
        field := field + s;
      case Value(s) =>
        value := value + s;
        flush := true;
      case Headers => Flush();
      case Body(s) => body := body + s;
    }
  }

  datatype ParseError = NoError | HeadersTooBig | BodyTooBig

  /** basic_parser_v1, as far as sizes go. */
  class BasicParserV1 {
    const isRequest: bool
    const impl: ParserV1
    var hMax: nat
    var hLeft: nat
    var bMax: nat
    var bLeft: nat

    ghost predicate Valid()
      reads this
    {
      && hMax < TWO_64 && hLeft < TWO_64 && bMax < TWO_64 && bLeft < TWO_64
    }

    /** init() and reset(): at most 16KB of headers, and 4MB of body for requests. */
    constructor (isRequest: bool)
      ensures Valid() && this.isRequest == isRequest && fresh(impl) && impl.St() == START
      ensures hLeft == hMax == 16384 && bLeft == bMax == if isRequest then 4194304 else 0
    {
      this.isRequest := isRequest;
      impl := new ParserV1();
      hMax, hLeft := 16384, 16384;
      bMax := if isRequest then 4194304 else 0;
      bLeft := if isRequest then 4194304 else 0;
    }

    /** set_option(headers_max_size) */
    method SetHeadersMax(n: nat)
      requires Valid() && n < TWO_64
      modifies `hMax, `hLeft
      ensures Valid() && hMax == hLeft == n
    {
      hMax := n;
      hLeft := hMax;
    }

    /** set_option(body_max_size) */
    method SetBodyMax(n: nat)
      requires Valid() && n < TWO_64
      modifies `bMax, `bLeft
      ensures Valid() && bMax == bLeft == n
    {
      bMax := n;
      bLeft := bMax;
    }

    /** call_on_method(), call_on_uri(), call_on_reason(), call_on_field() and call_on_value(): std::size_t
        wraps when there is no limit. */
    method CallCounted(e: Event) returns (ec: ParseError)
      requires Valid() && Counted(e) && |e.s| < TWO_64
      modifies `hLeft, impl
      ensures Valid()
      ensures var skipped := if isRequest then e.Reason? else e.Method? || e.Uri?;
        && (ec == if !skipped && hMax != 0 && |e.s| > old(hLeft) then HeadersTooBig else NoError)
        && (ec == NoError && !skipped ==>
              impl.St() == Step(old(impl.St()), e) && (hMax != 0 ==> hLeft == old(hLeft) - |e.s|))
        && (ec != NoError || skipped ==> impl.St() == old(impl.St()) && hLeft == old(hLeft))
    {
      hide Step;
      if if e.Method? || e.Uri? then !isRequest else e.Reason? && isRequest {
        return NoError;
      }
      if hMax != 0 && |e.s| > hLeft {
        return HeadersTooBig;
      }
      hLeft := if hLeft >= |e.s| then hLeft - |e.s| else hLeft + TWO_64 - |e.s|;
      impl.On(e);
      ec := NoError;
    }

    /** call_on_body() */
    method CallBody(s: text) returns (ec: ParseError)
      requires Valid() && |s| < TWO_64
      modifies `bLeft, impl
      ensures Valid() && ec == if bMax != 0 && |s| > old(bLeft) then BodyTooBig else NoError
      ensures ec == NoError ==>
        impl.St() == Step(old(impl.St()), Body(s)) && (bMax != 0 ==> bLeft == old(bLeft) - |s|)
      ensures ec != NoError ==> impl.St() == old(impl.St()) && bLeft == old(bLeft)
    {
      hide Step;
      if bMax != 0 && |s| > bLeft {
        return BodyTooBig;
      }
      bLeft := if bLeft >= |s| then bLeft - |s| else bLeft + TWO_64 - |s|;
      impl.On(Body(s));
      ec := NoError;
    }

    /** One callback. */
    method Call(e: Event) returns (ec: ParseError)
      requires Valid() && (!e.Headers? ==> |e.s| < TWO_64)
      modifies `hLeft, `bLeft, impl
      ensures Valid()
      ensures ec == NoError <==> Affordable(e, old(hLeft), old(bLeft))
      ensures ec == NoError ==> Spent(e, old(hLeft), old(bLeft))
      ensures ec != NoError ==> hLeft == old(hLeft) && bLeft == old(bLeft)
      ensures impl.St() == if ec == NoError && Delivered(e, isRequest) then Step(old(impl.St()), e) else old(impl.St())
    {
      hide Step;
      if e.Headers? {
        impl.On(e);
        ec := NoError;
      } else if e.Body? {
        ec := CallBody(e.s);
      } else {
        ec := CallCounted(e);
      }
    }

    ghost predicate Affordable(e: Event, h: nat, b: nat)
      reads this`hMax, this`bMax
    {
      Delivered(e, isRequest) ==>
        && (Counted(e) && hMax != 0 ==> |e.s| <= h)
        && (e.Body? && bMax != 0 ==> |e.s| <= b)
    }

    ghost predicate Spent(e: Event, h: nat, b: nat)
      reads this
    {
      && (hMax != 0 ==> hLeft == h - (if Counted(e) && Delivered(e, isRequest) then |e.s| else 0))
      && (bMax != 0 ==> bLeft == b - (if e.Body? then |e.s| else 0))
    }

    /** What is stored and what is left of the limits. */
    ghost function Total(): nat
      reads this`hLeft, impl
    {
      Stored(impl.St()) + hLeft
    }

    ghost function BodyTotal(): nat
      reads this`bLeft, impl
    {
      |impl.St().body| + bLeft
    }

    /** The callbacks for a message, up to the first that fails: n of them succeed.  With a limit,
        what is left and what is stored always make up what they made up before, whether the run
        fails or not, and it fails exactly when it would go over the limit. */
    method Deliver(es: seq<Event>) returns (n: nat, ec: ParseError)
      requires Valid() && forall i :: 0 <= i < |es| ==> !es[i].Headers? ==> |es[i].s| < TWO_64
      modifies `hLeft, `bLeft, impl
      ensures Valid() && n <= |es| && (ec == NoError <==> n == |es|)
      ensures impl.St() == Run(old(impl.St()), Heard(es[..n], isRequest))
      ensures hMax != 0 ==> Total() == old(Total()) && hLeft + HeaderCost(Heard(es[..n], isRequest)) == old(hLeft)
      ensures bMax != 0 ==> BodyTotal() == old(BodyTotal()) && bLeft + BodyCost(Heard(es[..n], isRequest)) == old(bLeft)
      ensures ec == NoError <==>
        && (hMax != 0 ==> HeaderCost(Heard(es, isRequest)) <= old(hLeft))
        && (bMax != 0 ==> BodyCost(Heard(es, isRequest)) <= old(bLeft))
    {
      hide Step, HeaderCost, BodyCost, Heard, Run, Stored;
      HeardNone(impl.St(), isRequest, es);
      n := 0;
      ec := NoError;
      while n < |es|
        invariant Valid() && n <= |es| && ec == NoError
        invariant impl.St() == Run(old(impl.St()), Heard(es[..n], isRequest))
        invariant hMax != 0 ==> hLeft + HeaderCost(Heard(es[..n], isRequest)) == old(hLeft)
        invariant bMax != 0 ==> bLeft + BodyCost(Heard(es[..n], isRequest)) == old(bLeft)
      {
        HeardNext(old(impl.St()), isRequest, es, n);
        HeardMore(isRequest, es, n + 1);
        ec := Call(es[n]);
        if ec != NoError {
          break;
        }
        n := n + 1;
      }
      StoredRun(old(impl.St()), Heard(es[..n], isRequest));
      assert n == |es| ==> es[..n] == es;
    }
  }

  /** A message parsed from the start under limits on headers and body: the first n callbacks succeed,
      and all of them if the message fits the limits.  Method and URI are stored for a request and
      the reason for a response; whether or not it ends in an error, all that is stored of the
      headers and what is left make up the limit, and the same for the body. */
  method ParseLimited(isRequest: bool, headersMax: nat, bodyMax: nat, es: seq<Event>)
    returns (stored: State, n: nat, hLeft: nat, bLeft: nat, ec: ParseError)
    requires headersMax < TWO_64 && bodyMax < TWO_64
    requires forall i :: 0 <= i < |es| ==> !es[i].Headers? ==> |es[i].s| < TWO_64
    ensures n <= |es| && (ec == NoError <==> n == |es|)
    ensures stored.verb == if isRequest then Text(es[..n], OfMethod) else []
    ensures stored.uri == if isRequest then Text(es[..n], OfUri) else []
    ensures stored.reason == if isRequest then [] else Text(es[..n], OfReason)
    ensures stored.body == Text(es[..n], OfBody)
    ensures stored == Run(START, es[..n]).(verb := stored.verb, uri := stored.uri, reason := stored.reason)
    ensures headersMax != 0 ==> Stored(stored) + hLeft == headersMax
    ensures bodyMax != 0 ==> |stored.body| + bLeft == bodyMax
    ensures ec == NoError <==>
      && (headersMax != 0 ==> HeaderSize(es, isRequest) <= headersMax)
      && (bodyMax != 0 ==> |Text(es, OfBody)| <= bodyMax)
  {
    hide Stored, HeaderCost, BodyCost, Heard, Run, Text, HeaderSize;
    var p := new BasicParserV1(isRequest);
    StoredStart();
    p.SetHeadersMax(headersMax);
    p.SetBodyMax(bodyMax);
    n, ec := p.Deliver(es);
    HeardCost(es, isRequest);
    HeardState(es[..n], isRequest);
    RunText(es[..n]);
    stored := State(p.impl.verb, p.impl.uri, p.impl.reason, p.impl.field, p.impl.value, p.impl.flush,
                    p.impl.inserted, p.impl.body);
    hLeft, bLeft := p.hLeft, p.bLeft;
  }

  lemma StoredStart()
    ensures Stored(START) == 0
  {
  }

  lemma HeardNone(st: State, isRequest: bool, es: seq<Event>)
    ensures var hs := Heard(es[..0], isRequest);
      Run(st, hs) == st && HeaderCost(hs) == 0 && BodyCost(hs) == 0
  {
  }

  lemma HeardNext(st: State, isRequest: bool, es: seq<Event>, n: nat)
    requires n < |es|
    ensures var hs, hs', e := Heard(es[..n], isRequest), Heard(es[..n + 1], isRequest), es[n];
      if Delivered(e, isRequest) then
        && Run(st, hs') == Step(Run(st, hs), e)
        && HeaderCost(hs') == HeaderCost(hs) + (if Counted(e) then |e.s| else 0)
        && BodyCost(hs') == BodyCost(hs) + (if e.Body? then |e.s| else 0)
      else
        Run(st, hs') == Run(st, hs) && HeaderCost(hs') == HeaderCost(hs) && BodyCost(hs') == BodyCost(hs)
  {
    hide Step;
    var hs, e := Heard(es[..n], isRequest), es[n];
    assert es[..n + 1][..n] == es[..n];
    if Delivered(e, isRequest) {
      assert (hs + [e])[..|hs|] == hs;
    } else {
      assert hs + [] == hs;
    }
  }

  /** Costs only grow. */
  lemma {:induction false} HeardMore(isRequest: bool, es: seq<Event>, n: nat)
    requires n <= |es|
    ensures HeaderCost(Heard(es[..n], isRequest)) <= HeaderCost(Heard(es, isRequest))
    ensures BodyCost(Heard(es[..n], isRequest)) <= BodyCost(Heard(es, isRequest))
    decreases |es| - n
  {
    hide HeaderCost, BodyCost, Heard;
    if n == |es| {
      assert es[..n] == es;
    } else {
      HeardNext(START, isRequest, es, n);
      HeardMore(isRequest, es, n + 1);
    }
  }
}
