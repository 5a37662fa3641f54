/** What param_iter of include/beast/http/detail/rfc7230.hpp finds in a string, and that this is
    what the grammar has there: printed lists are read back, and what is read is printed. */
module ParamScan {
  import opened Bytes
  import opened Rfc7230
  import opened ParamGrammar

  // ---- What one increment() finds ----

  /** The first index from i on that is not optional white space. */
  function OwsEnd(s: text, i: nat): (j: nat)
    requires i <= |s|
    ensures i <= j <= |s| && (j < |s| ==> !Ows(s[j])) && forall k :: i <= k < j ==> Ows(s[k])
    decreases |s| - i
  {
    if i < |s| && Ows(s[i]) then OwsEnd(s, i + 1) else i
  }

  function TokenEnd(s: text, i: nat): (j: nat)
    requires i <= |s|
    ensures i <= j <= |s| && (j < |s| ==> !IsTchar(s[j])) && forall k :: i <= k < j ==> IsTchar(s[k])
    decreases |s| - i
  {
    if i < |s| && IsTchar(s[i]) then TokenEnd(s, i + 1) else i
  }

  datatype Scan = Ok(end: nat) | Bad(at: nat)

  /** The end of a quoted string, from somewhere inside it. */
  function QuotedEnd(s: text, i: nat): (r: Scan)
    requires i <= |s|
    ensures r.Ok? ==> i < r.end <= |s| && s[r.end - 1] == '"'
    ensures r.Bad? ==> i <= r.at <= |s|
    decreases |s| - i
  {
    if i == |s| then Bad(i)
    else if s[i] == '"' then Ok(i + 1)
    else if IsQdchar(s[i]) then QuotedEnd(s, i + 1)
    else if s[i] != '\\' then Bad(i)
    else if i + 1 == |s| then Bad(i + 1)
    else if IsQpchar(s[i + 1]) then QuotedEnd(s, i + 2)
    else Bad(i + 1)
  }

  /** A parameter found: where it starts, its name n0..n1, its value v0..v1, and where scanning
      stopped.  Or none: where scanning started, and the character that cannot be. */
  datatype Step = Got(from: nat, n0: nat, n1: nat, v0: nat, v1: nat) | Stop(from: nat, at: nat)

  function Value(s: text, a: nat, n0: nat, n1: nat, d: nat): (r: Step)
    requires d <= |s|
    ensures r.from == a
    ensures if r.Got? then r.n0 == n0 && r.n1 == n1 && r.v0 == d && d <= r.v1 <= |s| else d <= r.at <= |s|
  {
    if d == |s| then Got(a, n0, n1, d, d)
    else if s[d] == '"' then
      match QuotedEnd(s, d + 1) {
        case Ok(e) => Got(a, n0, n1, d, e)
        case Bad(at) => Stop(a, at)
      }
    else if !IsTchar(s[d]) then Stop(a, d)
    else Got(a, n0, n1, d, TokenEnd(s, d + 1))
  }

  /** The slices lie in s, in order. */
  predicate Within(s: text, i: nat, r: Step) {
    match r
    case Got(a, n0, n1, v0, v1) => i <= a < n0 < n1 <= v0 <= v1 <= |s|
    case Stop(a, at) => i <= a <= at <= |s|
  }

  function AfterName(s: text, a: nat, n0: nat, n1: nat, c: nat): (r: Step)
    requires c <= |s|
    ensures r.from == a
    ensures if r.Got? then r.n0 == n0 && r.n1 == n1 && c <= r.v0 <= r.v1 <= |s| else c <= r.at <= |s|
  {
    if c == |s| || s[c] == ';' then Got(a, n0, n1, c, c)
    else if s[c] != '=' then Stop(a, c)
    else Value(s, a, n0, n1, OwsEnd(s, c + 1))
  }

  /** The semicolon and the name: Some name, or the character that cannot be. */
  datatype Name = Name(n0: nat, n1: nat) | NoName(at: nat)

  function NameAfter(s: text, a: nat): (r: Name)
    requires a <= |s|
    ensures if r.Name? then a < r.n0 < r.n1 <= |s| else a <= r.at <= |s|
  {
    if a == |s| || s[a] != ';' then NoName(a)
    else
      var n0 := OwsEnd(s, a + 1);
      if n0 == |s| || !IsTchar(s[n0]) then NoName(n0)
      else Name(n0, TokenEnd(s, n0 + 1))
  }

  function NextParam(s: text, i: nat): (r: Step)
    requires i <= |s|
    ensures Within(s, i, r)
  {
    var a := OwsEnd(s, i);
    match NameAfter(s, a)
    case NoName(at) => Stop(a, at)
    case Name(n0, n1) => AfterName(s, a, n0, n1, OwsEnd(s, n1))
  }

  /** unquote(): backslashes go, and so do the quotes. */
  function Unquote(raw: text, i: nat): text
    requires i <= |raw|
    decreases |raw| - i
  {
    if i + 1 >= |raw| then []
    else if raw[i] == '\\' then
      (if i + 2 >= |raw| then [] else [raw[i + 1]] + Unquote(raw, i + 2))
    else [raw[i]] + Unquote(raw, i + 1)
  }

  /** The value that a slice stands for. */
  function Meaning(raw: text): text {
    if raw != [] && raw[0] == '"' then Unquote(raw, 1) else raw
  }

  /** What a step shows: the name, and the value that the slice stands for. */
  function Shown(s: text, r: Step): (text, text)
    requires r.Got? && Within(s, 0, r)
  {
    (s[r.n0..r.n1], Meaning(s[r.v0..r.v1]))
  }

  /** The parameters from i on, and where and how they end. */
  function Params(s: text, i: nat): seq<(text, text)>
    requires i <= |s|
    decreases |s| - i
  {
    var r := NextParam(s, i);
    if r.Stop? then [] else [Shown(s, r)] + Params(s, r.v1)
  }

  function Rejected(s: text, i: nat): (r: Step)
    requires i <= |s|
    ensures r.Stop? && i <= r.from <= r.at <= |s|
    decreases |s| - i
  {
    var r := NextParam(s, i);
    if r.Stop? then r else Rejected(s, r.v1)
  }

  /** t stands in s at i. */
  ghost predicate At(s: text, i: nat, t: text) {
    i + |t| <= |s| && s[i..i + |t|] == t
  }

  lemma AtSplit(s: text, i: nat, a: text, b: text, k: nat)
    requires At(s, i, a + b) && k == i + |a|
    ensures At(s, i, a) && At(s, k, b)
  {
    assert s[i..i + |a|] == s[i..i + |a + b|][..|a|];
    assert s[i + |a|..i + |a| + |b|] == s[i..i + |a + b|][|a|..];
  }

  lemma AtIndex(s: text, i: nat, t: text)
    requires At(s, i, t)
    ensures forall k :: 0 <= k < |t| ==> s[i + k] == t[k]
  {
    forall k | 0 <= k < |t| ensures s[i + k] == t[k] {
      assert s[i..i + |t|][k] == s[i + k];
    }
  }

  /** White space is skipped piece by piece. */
  lemma {:induction false} OwsSkip(s: text, i: nat, o: text)
    requires At(s, i, o) && IsOws(o)
    ensures OwsEnd(s, i) == OwsEnd(s, i + |o|)
    decreases |o|
  {
    hide Ows;
    if o != [] {
      AtIndex(s, i, o);
      assert s[i + 0] == o[0];
      assert o == o[..1] + o[1..];
      AtSplit(s, i, o[..1], o[1..], i + 1);
      OwsSkip(s, i + 1, o[1..]);
    }
  }

  lemma TokenFirst(c: octet)
    requires Tchar(c)
    ensures !Ows(c) && c != '"'
  {
  }

  lemma TokenSpan(s: text, i: nat, t: text)
    requires At(s, i, t) && IsToken(t) && (i + |t| < |s| ==> !Tchar(s[i + |t|]))
    ensures i < i + |t| <= |s| && IsTchar(s[i]) && TokenEnd(s, i + 1) == i + |t|
    ensures s[i] == t[0] && !Ows(s[i]) && s[i] != '"'
  {
    AtIndex(s, i, t);
    assert Tchar(t[0]) && s[i + 0] == t[0];
    TokenFirst(t[0]);
    hide IsTchar, Tchar, TokenEnd;
    forall k | i <= k < i + |t| ensures IsTchar(s[k]) {
      assert s[i + (k - i)] == t[k - i];
      TcharTable(s[k]);
    }
    if i + |t| < |s| {
      TcharTable(s[i + |t|]);
    }
  }

  lemma QuotedChar(s: text, i: nat, c: QChar)
    requires At(s, i, c.Print()) && c.Valid()
    ensures QuotedEnd(s, i) == QuotedEnd(s, i + |c.Print()|)
  {
    AtIndex(s, i, c.Print());
    assert s[i + 0] == c.Print()[0];
    assert !Qdtext('"') && !Qdtext('\\');
    hide IsQdchar, IsQpchar, Qdtext, Escapable;
    QdcharTable(s[i]);
    if c.Escaped? {
      assert s[i + 1] == c.Print()[1];
      QpcharTable(s[i + 1]);
    }
  }

  lemma QuotedClose(s: text, i: nat)
    requires At(s, i, ['"'])
    ensures i < |s| && QuotedEnd(s, i) == Ok(i + 1)
  {
    AtIndex(s, i, ['"']);
    assert s[i + 0] == '"';
  }

  lemma AtFits(s: text, i: nat, t: text)
    requires At(s, i, t)
    ensures i + |t| <= |s|
  {
  }

  lemma {:induction false} QuotedSpan(s: text, i: nat, q: seq<QChar>)
    requires At(s, i, PrintQuoted(q)) && AllChars(q)
    ensures QuotedEnd(s, i) == Ok(i + |PrintQuoted(q)|)
    decreases |q|
  {
    hide QuotedEnd, At, QChar.Valid, QChar.Print;
    if q == [] {
      QuotedClose(s, i);
    } else {
      AtSplit(s, i, q[0].Print(), PrintQuoted(q[1..]), i + |q[0].Print()|);
      AtFits(s, i, q[0].Print());
      QuotedChar(s, i, q[0]);
      QuotedSpan(s, i + |q[0].Print()|, q[1..]);
    }
  }

  lemma {:induction false} UnquoteSpan(raw: text, i: nat, q: seq<QChar>)
    requires At(raw, i, PrintQuoted(q)) && i + |PrintQuoted(q)| == |raw|
    requires AllChars(q)
    ensures Unquote(raw, i) == Contents(q)
    decreases |q|
  {
    if q != [] {
      var c := q[0];
      AtSplit(raw, i, c.Print(), PrintQuoted(q[1..]), i + |c.Print()|);
      AtIndex(raw, i, c.Print());
      assert raw[i + 0] == c.Print()[0];
      PrintQuotedSize(q[1..]);
      UnquoteSpan(raw, i + |c.Print()|, q[1..]);
      if c.Plain? {
        assert !Qdtext('\\');
      } else {
        assert raw[i + 1] == c.Print()[1];
      }
    }
  }

  lemma PrintQuotedSize(q: seq<QChar>)
    ensures |PrintQuoted(q)| >= 1
  {
  }

  lemma TokenValue(s: text, a: nat, n0: nat, n1: nat, d: nat, t: text)
    requires IsToken(t) && At(s, d, t)
    requires var e := d + |t|; e < |s| ==> !Tchar(s[e])
    ensures Value(s, a, n0, n1, d) == Got(a, n0, n1, d, d + |t|)
    ensures Meaning(t) == t && d < |s| && !Ows(s[d])
  {
    hide IsTchar, Tchar, TokenEnd, Unquote, QuotedEnd;
    TokenSpan(s, d, t);
  }

  lemma QuotedValue(s: text, a: nat, n0: nat, n1: nat, d: nat, q: seq<QChar>, raw: text)
    requires AllChars(q) && raw == ['"'] + PrintQuoted(q) && At(s, d, raw)
    ensures Value(s, a, n0, n1, d) == Got(a, n0, n1, d, d + |raw|)
    ensures Meaning(raw) == Contents(q) && d < |s| && !Ows(s[d])
  {
    hide IsTchar, AllChars, PrintQuoted, Unquote, TokenEnd, QuotedEnd, Contents;
    AtIndex(s, d, raw);
    assert s[d + 0] == raw[0] == '"';
    AtSplit(s, d, ['"'], PrintQuoted(q), d + 1);
    QuotedSpan(s, d + 1, q);
    assert raw[1..] == PrintQuoted(q);
    UnquoteSpan(raw, 1, q);
  }

  /** A printed value is read to its end, and means what it says. */
  lemma ValueSpan(s: text, a: nat, n0: nat, n1: nat, d: nat, p: Param)
    requires p.Valid() && !p.value.Absent? && At(s, d, p.value.Print())
    requires var e := d + |p.value.Print()|; e < |s| ==> !Tchar(s[e])
    ensures Value(s, a, n0, n1, d) == Got(a, n0, n1, d, d + |p.value.Print()|)
    ensures Meaning(p.value.Print()) == p.Said().1 && d < |s| && !Ows(s[d])
  {
    hide At, Ows, Tchar, IsToken, AllChars, PrintQuoted, Contents, Value, Meaning;
    match p.value
    case Token(t) =>
      TokenValue(s, a, n0, n1, d, t);
    case Quoted(q) =>
      QuotedValue(s, a, n0, n1, d, q, p.value.Print());
  }

  /** What may follow a name or a value. */
  lemma Delimiter(c: octet)
    requires Ows(c) || c == ';' || c == '='
    ensures !Tchar(c)
  {
  }

  /** Where the parts of a printed parameter stand. */
  ghost predicate Parts(s: text, i: nat, p: Param, n0: nat, n1: nat) {
    && At(s, i, p.o1) && At(s, i + |p.o1|, [';'])
    && At(s, i + |p.o1| + 1, p.o2) && n0 == i + |p.o1| + 1 + |p.o2|
    && At(s, n0, p.name) && n1 == n0 + |p.name| && At(s, n1, p.o3)
    && (!p.value.Absent? ==>
          && At(s, n1 + |p.o3|, ['=']) && At(s, n1 + |p.o3| + 1, p.o4)
          && At(s, n1 + |p.o3| + 1 + |p.o4|, p.value.Print()))
  }

  lemma PartsOf(s: text, i: nat, p: Param) returns (n0: nat, n1: nat)
    requires At(s, i, p.Print())
    ensures i + |p.Print()| <= |s| && Parts(s, i, p, n0, n1)
    ensures i + |p.Print()| == n1 + |p.o3| + (if p.value.Absent? then 0 else 1 + |p.o4| + |p.value.Print()|)
  {
    hide At, Written.Print;
    var v := p.PrintTail();
    var a := i + |p.o1|;
    n0 := a + 1 + |p.o2|;
    n1 := n0 + |p.name|;
    AtSplit(s, i, p.o1, [';'] + (p.o2 + (p.name + (p.o3 + v))), a);
    AtSplit(s, a, [';'], p.o2 + (p.name + (p.o3 + v)), a + 1);
    AtSplit(s, a + 1, p.o2, p.name + (p.o3 + v), n0);
    AtSplit(s, n0, p.name, p.o3 + v, n1);
    var c := n1 + |p.o3|;
    AtSplit(s, n1, p.o3, v, c);
    if !p.value.Absent? {
      AtSplit(s, c, ['='], p.o4 + p.value.Print(), c + 1);
      AtSplit(s, c + 1, p.o4, p.value.Print(), c + 1 + |p.o4|);
    }
  }

  lemma FirstOf(s: text, i: nat, o: text)
    requires At(s, i, o) && o != []
    ensures i < |s| && s[i] == o[0]
  {
    AtIndex(s, i, o);
    assert s[i + 0] == o[0];
  }

  lemma OwsNone(s: text, i: nat)
    requires i <= |s| && (i < |s| ==> !Ows(s[i]))
    ensures OwsEnd(s, i) == i
  {
  }

  lemma AtSlice(s: text, i: nat, t: text, e: nat)
    requires At(s, i, t) && e == i + |t|
    ensures e <= |s| && s[i..e] == t
  {
  }

  lemma NameFound(s: text, a: nat, n0: nat, n1: nat)
    requires a < |s| && s[a] == ';' && OwsEnd(s, a + 1) == n0 < |s|
    requires IsTchar(s[n0]) && TokenEnd(s, n0 + 1) == n1
    ensures NameAfter(s, a) == Name(n0, n1)
  {
    hide IsTchar, OwsEnd, TokenEnd;
  }

  lemma NameSpan(s: text, i: nat, p: Param, n0: nat, n1: nat)
    requires p.Valid() && Parts(s, i, p, n0, n1) && (n1 < |s| ==> !Tchar(s[n1]))
    ensures n1 <= |s| && s[n0..n1] == p.name
    ensures OwsEnd(s, i) == i + |p.o1| && NameAfter(s, i + |p.o1|) == Name(n0, n1)
  {
    hide IsTchar, TokenEnd, Tchar, IsOws, IsToken, OwsEnd, At, Written.Print, NameAfter;
    AtSlice(s, n0, p.name, n1);
    var a := i + |p.o1|;
    FirstOf(s, a, [';']);
    OwsSkip(s, i, p.o1);
    OwsNone(s, a);
    OwsSkip(s, a + 1, p.o2);
    TokenSpan(s, n0, p.name);
    OwsNone(s, n0);
    NameFound(s, a, n0, n1);
  }

  /** What follows the name. */
  lemma AfterNameSpan(s: text, n1: nat, p: Param)
    requires IsOws(p.o3) && At(s, n1, p.o3)
    requires if p.value.Absent? then n1 + |p.o3| < |s| ==> Ows(s[n1 + |p.o3|]) || s[n1 + |p.o3|] == ';'
             else At(s, n1 + |p.o3|, ['='])
    ensures n1 < |s| ==> !Tchar(s[n1])
  {
    hide Tchar;
    if p.o3 != [] {
      FirstOf(s, n1, p.o3);
    } else if !p.value.Absent? {
      FirstOf(s, n1, ['=']);
    }
    if n1 < |s| {
      Delimiter(s[n1]);
    }
  }

  /** A printed parameter without value is read back. */
  lemma BareSpan(s: text, i: nat, p: Param, n0: nat, n1: nat)
    requires p.Valid() && p.value.Absent? && Parts(s, i, p, n0, n1)
    requires var e := n1 + |p.o3|;
      && (e < |s| ==> Ows(s[e]) || s[e] == ';')
      && e <= |s|
      && (OwsEnd(s, e) < |s| ==> s[OwsEnd(s, e)] == ';')
    ensures var r := NextParam(s, i);
      r.Got? && Shown(s, r) == p.Said() && r.v1 == OwsEnd(s, n1 + |p.o3|)
  {
    hide IsTchar, TokenEnd, Tchar, IsOws, IsToken, Value, OwsEnd, NameAfter, Ows, At;
    AfterNameSpan(s, n1, p);
    NameSpan(s, i, p, n0, n1);
    OwsSkip(s, n1, p.o3);
  }

  /** From the end of the name to the value. */
  lemma EqualsSpan(s: text, i: nat, p: Param, n0: nat, n1: nat, d: nat)
    requires p.Valid() && !p.value.Absent? && Parts(s, i, p, n0, n1) && d == n1 + |p.o3| + 1 + |p.o4|
    requires d < |s| && !Ows(s[d])
    ensures n1 <= |s| && AfterName(s, i + |p.o1|, n0, n1, OwsEnd(s, n1)) == Value(s, i + |p.o1|, n0, n1, d)
  {
    hide IsOws, Value, OwsEnd, At, Written.Print, Param.Valid;
    assert IsOws(p.o3) && IsOws(p.o4) by { PartsOws(p); }
    var c := n1 + |p.o3|;
    OwsSkip(s, n1, p.o3);
    FirstOf(s, c, ['=']);
    OwsNone(s, c);
    OwsSkip(s, c + 1, p.o4);
    OwsNone(s, d);
  }

  lemma PartsOws(p: Param)
    requires p.Valid()
    ensures IsOws(p.o1) && IsOws(p.o2) && IsOws(p.o3) && IsOws(p.o4) && IsToken(p.name)
  {
  }

  /** A printed parameter with a value is read back. */
  lemma FullSpan(s: text, i: nat, p: Param, n0: nat, n1: nat, d: nat, e: nat)
    requires p.Valid() && !p.value.Absent? && Parts(s, i, p, n0, n1)
    requires d == n1 + |p.o3| + 1 + |p.o4| && e == d + |p.value.Print()|
    requires e < |s| ==> Ows(s[e]) || s[e] == ';'
    ensures var r := NextParam(s, i);
      r.Got? && Shown(s, r) == p.Said() && r.v1 == e
  {
    hide IsTchar, TokenEnd, Tchar, IsOws, IsToken, Value, AfterName, OwsEnd, NameAfter, At;
    hide Param.Valid, Written.Print, Meaning;
    AtSlice(s, d, p.value.Print(), e);
    PartsOws(p);
    AfterNameSpan(s, n1, p);
    NameSpan(s, i, p, n0, n1);
    if e < |s| {
      Delimiter(s[e]);
    }
    ValueSpan(s, i + |p.o1|, n0, n1, d, p);
    EqualsSpan(s, i, p, n0, n1, d);
    assert NextParam(s, i) == Got(i + |p.o1|, n0, n1, d, e);
  }

  /** A printed parameter is read back, whatever parameters or white space follow. */
  lemma ParamSpan(s: text, i: nat, p: Param, e: nat)
    requires p.Valid() && At(s, i, p.Print()) && e == i + |p.Print()| <= |s|
    requires e < |s| ==> Ows(s[e]) || s[e] == ';'
    requires OwsEnd(s, e) < |s| ==> s[OwsEnd(s, e)] == ';'
    ensures var r := NextParam(s, i);
      r.Got? && Shown(s, r) == p.Said() && r.v1 == if p.value.Absent? then OwsEnd(s, e) else e
  {
    hide Ows, OwsEnd, NextParam, Shown, Param.Print, Written.Print, Param.Valid, Param.Said, Parts, At;
    var n0, n1 := PartsOf(s, i, p);
    if p.value.Absent? {
      BareSpan(s, i, p, n0, n1);
    } else {
      FullSpan(s, i, p, n0, n1, n1 + |p.o3| + 1 + |p.o4|, e);
    }
  }

  /** White space in front changes nothing. */
  lemma ParamsSkip(s: text, i: nat)
    requires i <= |s|
    ensures Params(s, OwsEnd(s, i)) == Params(s, i) && Rejected(s, OwsEnd(s, i)) == Rejected(s, i)
  {
    hide OwsEnd, NameAfter, AfterName, TokenEnd, Shown;
    OwsNone(s, OwsEnd(s, i));
  }

  /** What stands after a parameter: white space, then the next semicolon or the end. */
  lemma NextStarts(s: text, e: nat, ps: seq<Param>, tail: text)
    requires e <= |s| && At(s, e, PrintAll(ps) + tail) && e + |PrintAll(ps) + tail| == |s|
    requires AllParams(ps) && IsOws(tail)
    ensures e < |s| ==> Ows(s[e]) || s[e] == ';'
    ensures if ps == [] then OwsEnd(s, e) == |s| else OwsEnd(s, e) < |s| && s[OwsEnd(s, e)] == ';'
  {
    hide OwsEnd, At, Ows, Param.Valid, Param.PrintTail;
    if ps == [] {
      assert PrintAll(ps) + tail == tail;
      OwsSkip(s, e, tail);
      OwsNone(s, |s|);
      if tail != [] {
        FirstOf(s, e, tail);
        OwsFirst(tail);
      }
    } else {
      AtSplit(s, e, PrintAll(ps), tail, e + |PrintAll(ps)|);
      AtSplit(s, e, ps[0].Print(), PrintAll(ps[1..]), e + |ps[0].Print()|);
      ParamStarts(s, e, ps[0]);
    }
  }

  lemma ParamStarts(s: text, e: nat, p: Param)
    requires e <= |s| && At(s, e, p.Print()) && p.Valid()
    ensures e < |s| && (Ows(s[e]) || s[e] == ';')
    ensures OwsEnd(s, e) < |s| && s[OwsEnd(s, e)] == ';'
  {
    hide OwsEnd, At, IsOws, Param.PrintTail;
    var a, rest := e + |p.o1|, p.o2 + (p.name + (p.o3 + p.PrintTail()));
    AtSplit(s, e, p.o1, [';'] + rest, a);
    AtSplit(s, a, [';'], rest, a + 1);
    FirstOf(s, a, [';']);
    OwsSkip(s, e, p.o1);
    OwsNone(s, a);
    if p.o1 != [] {
      FirstOf(s, e, p.o1);
      OwsFirst(p.o1);
    }
  }

  lemma OwsFirst(o: text)
    requires IsOws(o) && o != []
    ensures Ows(o[0])
  {
  }

  lemma {:induction false} ListSpan(s: text, i: nat, ps: seq<Param>, tail: text)
    requires i <= |s| && At(s, i, PrintAll(ps) + tail) && i + |PrintAll(ps) + tail| == |s|
    requires AllParams(ps) && IsOws(tail)
    ensures Params(s, i) == SaidAll(ps) && Rejected(s, i) == Stop(|s|, |s|)
    decreases |ps|
  {
    hide OwsEnd, NextParam, Param.Valid, Param.Print, Param.Said, Shown, IsOws, Ows, At;
    if ps == [] {
      NextStarts(s, i, ps, tail);
      NoneLeft(s, i);
    } else {
      var p, more := ps[0], ps[1..];
      var e := i + |p.Print()|;
      Assoc(p.Print(), PrintAll(more), tail);
      AtSplit(s, i, p.Print(), PrintAll(more) + tail, e);
      NextStarts(s, e, more, tail);
      ParamSpan(s, i, p, e);
      ListSpan(s, e, more, tail);
      ParamsSkip(s, e);
    }
  }

  lemma NoneLeft(s: text, i: nat)
    requires i <= |s| && OwsEnd(s, i) == |s|
    ensures NextParam(s, i) == Stop(|s|, |s|)
  {
  }

  /** A printed list, however white space is put in where the grammar allows it, is read back
      exactly, and to its end. */
  lemma ListRoundTrip(ps: seq<Param>, tail: text)
    requires AllParams(ps) && IsOws(tail)
    ensures Params(PrintAll(ps) + tail, 0) == SaidAll(ps)
    ensures Rejected(PrintAll(ps) + tail, 0).from == |PrintAll(ps) + tail|
  {
    hide Params, Rejected, Param.Valid, IsOws, PrintAll, SaidAll;
    var s := PrintAll(ps) + tail;
    assert s[0..0 + |s|] == s;
    ListSpan(s, 0, ps, tail);
  }

  // ---- What is read is what the grammar has ----

  lemma SliceJoin(s: text, x: nat, y: nat, z: nat)
    requires x <= y <= z <= |s|
    ensures s[x..y] + s[y..z] == s[x..z]
  {
  }

  /** What the scanner takes for a quoted string is one. */
  lemma {:induction false} QuotedIsPrinted(s: text, i: nat) returns (q: seq<QChar>)
    requires i <= |s| && QuotedEnd(s, i).Ok?
    ensures AllChars(q) && s[i..QuotedEnd(s, i).end] == PrintQuoted(q)
    decreases |s| - i
  {
    hide IsQdchar, IsQpchar, PrintQuoted, AllChars, QChar.Print, QChar.Valid;
    var e := QuotedEnd(s, i).end;
    if s[i] == '"' {
      q := ClosingQuote();
      assert s[i..e] == ['"'];
    } else if IsQdchar(s[i]) {
      var r := QuotedIsPrinted(s, i + 1);
      q := PlainMore(s, i, e, r, []);
    } else {
      var r := QuotedIsPrinted(s, i + 2);
      q := EscapedMore(s, i, e, r, []);
    }
  }

  lemma ClosingQuote() returns (q: seq<QChar>)
    ensures AllChars(q) && PrintQuoted(q) == ['"']
  {
    q := [];
  }

  lemma QuotedMore(c: QChar, q: seq<QChar>) returns (r: seq<QChar>)
    requires c.Valid() && AllChars(q)
    ensures AllChars(r) && PrintQuoted(r) == c.Print() + PrintQuoted(q)
  {
    r := [c] + q;
    assert r[1..] == q;
  }

  /** One more character in front of what, with e after it, is the rest of a quoted string. */
  lemma PlainMore(s: text, i: nat, k: nat, q: seq<QChar>, e: text) returns (r: seq<QChar>)
    requires i < k <= |s| && IsQdchar(s[i]) && AllChars(q)
    requires s[i + 1..k] + e == PrintQuoted(q) || (e == [] && s[i + 1..k] == PrintQuoted(q))
    ensures AllChars(r) && s[i..k] + e == PrintQuoted(r) && (e == [] ==> s[i..k] == PrintQuoted(r))
  {
    hide IsQdchar, PrintQuoted, AllChars, Qdtext;
    QdcharTable(s[i]);
    r := QuotedMore(Plain(s[i]), q);
    SliceJoin(s, i, i + 1, k);
    assert s[i..i + 1] == Plain(s[i]).Print();
    Assoc(s[i..i + 1], s[i + 1..k], e);
    NothingMore(s[i + 1..k], e);
    NothingMore(s[i..k], e);
  }

  lemma EscapedMore(s: text, i: nat, k: nat, q: seq<QChar>, e: text) returns (r: seq<QChar>)
    requires i + 1 < k <= |s| && s[i] == '\\' && IsQpchar(s[i + 1]) && AllChars(q)
    requires s[i + 2..k] + e == PrintQuoted(q) || (e == [] && s[i + 2..k] == PrintQuoted(q))
    ensures AllChars(r) && s[i..k] + e == PrintQuoted(r) && (e == [] ==> s[i..k] == PrintQuoted(r))
  {
    hide IsQpchar, PrintQuoted, AllChars, Escapable;
    QpcharTable(s[i + 1]);
    r := QuotedMore(Escaped(s[i + 1]), q);
    SliceJoin(s, i, i + 2, k);
    assert s[i..i + 2] == Escaped(s[i + 1]).Print();
    Assoc(s[i..i + 2], s[i + 2..k], e);
    NothingMore(s[i + 2..k], e);
    NothingMore(s[i..k], e);
  }

  lemma NothingMore(t: text, e: text)
    ensures e == [] ==> t + e == t
  {
  }

  lemma QuoteIsNoTchar()
    ensures !IsTchar('"')
  {
  }

  lemma TokenSlice(s: text, i: nat)
    requires i < |s| && IsTchar(s[i])
    ensures IsToken(s[i..TokenEnd(s, i + 1)]) && s[i] != '"'
  {
    QuoteIsNoTchar();
    hide IsTchar, Tchar, TokenEnd;
    var t := s[i..TokenEnd(s, i + 1)];
    forall k | 0 <= k < |t| ensures Tchar(t[k]) {
      TcharTable(s[i + k]);
    }
  }

  lemma OwsSlice(s: text, i: nat)
    requires i <= |s|
    ensures IsOws(s[i..OwsEnd(s, i)])
  {
    hide Ows, OwsEnd;
  }

  /** The part of a parameter up to the end of its name and the white space after it. */
  lemma HeadIsPrinted(s: text, i: nat) returns (p: Param)
    requires i <= |s| && NameAfter(s, OwsEnd(s, i)).Name?
    ensures var a := OwsEnd(s, i);
      var r := NameAfter(s, a);
      && p.Valid() && p.value.Absent? && p.o1 == s[i..a] && p.name == s[r.n0..r.n1]
      && s[i..OwsEnd(s, r.n1)] == p.Print()
  {
    hide IsTchar, TokenEnd, OwsEnd, IsOws, IsToken;
    var a := OwsEnd(s, i);
    var n0, n1 := NameAfter(s, a).n0, NameAfter(s, a).n1;
    var c := OwsEnd(s, n1);
    OwsSlice(s, i);
    OwsSlice(s, a + 1);
    OwsSlice(s, n1);
    TokenSlice(s, n0);
    NoOws();
    p := Param(s[i..a], s[a + 1..n0], s[n0..n1], s[n1..c], [], Absent);
    HeadJoin(s, i, a, n0, n1, c);
  }

  lemma NoOws()
    ensures IsOws([])
  {
  }

  lemma HeadJoin(s: text, i: nat, a: nat, n0: nat, n1: nat, c: nat)
    requires i <= a < n0 <= n1 <= c <= |s| && s[a] == ';'
    ensures s[i..c] == s[i..a] + ([';'] + (s[a + 1..n0] + (s[n0..n1] + (s[n1..c] + []))))
  {
    assert s[n1..c] + [] == s[n1..c];
    SliceJoin(s, n0, n1, c);
    SliceJoin(s, a + 1, n0, c);
    assert s[a..a + 1] == [';'];
    SliceJoin(s, a, a + 1, c);
    SliceJoin(s, i, a, c);
  }

  /** A parameter without value, given one. */
  function WithValue(p: Param, o4: text, v: Written): Param { p.(o4 := o4, value := v) }

  lemma WithValuePrint(p: Param, o4: text, v: Written)
    requires p.Valid() && p.value.Absent? && IsOws(o4) && v.Valid() && !v.Absent?
    ensures WithValue(p, o4, v).Valid()
    ensures WithValue(p, o4, v).Print() == p.Print() + (['='] + (o4 + v.Print()))
  {
    hide IsOws, IsToken, Written.Valid, Written.Print;
    var t := ['='] + (o4 + v.Print());
    assert p.o3 + [] == p.o3;
    Assoc(p.name, p.o3, t);
    Assoc(p.o2, p.name + p.o3, t);
    Assoc([';'], p.o2 + (p.name + p.o3), t);
    Assoc(p.o1, [';'] + (p.o2 + (p.name + p.o3)), t);
  }

  /** The "=" and the white space after it. */
  lemma EqualsSlice(s: text, c: nat)
    requires c < |s| && s[c] == '='
    ensures var d := OwsEnd(s, c + 1);
      s[c..d] == ['='] + s[c + 1..d] && IsEquals(s[c..d]) && IsOws(s[c + 1..d])
  {
    hide IsOws, OwsEnd;
    OwsSlice(s, c + 1);
    var d := OwsEnd(s, c + 1);
    SliceJoin(s, c, c + 1, d);
    assert s[c..c + 1] == ['='];
    assert s[c..d][1..] == s[c + 1..d];
  }

  /** A value found is a token or a quoted string, and means what it says. */
  lemma ValueIsPrinted(s: text, a: nat, n0: nat, n1: nat, d: nat) returns (v: Written)
    requires d < |s| && Value(s, a, n0, n1, d).Got?
    ensures v.Valid() && !v.Absent?
    ensures var e := Value(s, a, n0, n1, d).v1; d < e && s[d..e] == v.Print() && Meaning(s[d..e]) == v.Said()
  {
    hide IsTchar, TokenEnd, QuotedEnd, IsToken, AllChars, Unquote;
    var e := Value(s, a, n0, n1, d).v1;
    if s[d] == '"' {
      var q := QuotedIsPrinted(s, d + 1);
      v := Quoted(q);
      SliceJoin(s, d, d + 1, e);
      assert s[d..d + 1] == ['"'];
      var raw := s[d..e];
      assert raw[1..1 + |PrintQuoted(q)|] == PrintQuoted(q);
      UnquoteSpan(raw, 1, q);
    } else {
      TokenSlice(s, d);
      v := Token(s[d..e]);
    }
  }

  /** Whatever increment() yields, the characters it went over are a parameter of the grammar that
      says what it shows; only at the end of the string may a "=" be left without value. */
  lemma ParamIsPrinted(s: text, i: nat) returns (p: Param, x: text)
    requires i <= |s| && NextParam(s, i).Got?
    ensures var r := NextParam(s, i);
      && p.Valid() && s[i..r.v1] == p.Print() + x && Shown(s, r) == p.Said()
      && p.name == s[r.n0..r.n1] && p.value.Print() == s[r.v0..r.v1]
      && (p.value.Absent? <==> r.v0 == r.v1)
      && (x == [] || (IsEquals(x) && p.value.Absent? && r.v1 == |s|))
  {
    hide IsTchar, OwsEnd, NameAfter, Value, Meaning, IsOws, IsToken, Written.Valid, Param.Valid, Param.Print;
    var r := NextParam(s, i);
    var c := OwsEnd(s, r.n1);
    p := HeadIsPrinted(s, i);
    x := [];
    assert p.Print() + [] == p.Print();
    MeaningNone();
    assert s[c..c] == [] && s[|s|..|s|] == [];
    if c < |s| && s[c] != ';' {
      var d := OwsEnd(s, c + 1);
      EqualsSlice(s, c);
      SliceJoin(s, i, c, d);
      if d == |s| {
        ValueAtEnd(s, r.from, r.n0, r.n1);
        x := s[c..d];
      } else {
        var v := ValueIsPrinted(s, r.from, r.n0, r.n1, d);
        WithValuePrint(p, s[c + 1..d], v);
        SliceJoin(s, i, d, r.v1);
        Assoc(p.Print(), s[c..d], v.Print());
        Assoc(['='], s[c + 1..d], v.Print());
        p := WithValue(p, s[c + 1..d], v);
        assert p.Print() + [] == p.Print();
      }
    }
  }

  lemma ValueAtEnd(s: text, a: nat, n0: nat, n1: nat)
    ensures Value(s, a, n0, n1, |s|) == Got(a, n0, n1, |s|, |s|)
  {
  }

  lemma MeaningNone()
    ensures Meaning([]) == []
  {
  }

  /** What increment() yields, for every input: slices in order, a name that is a token, and a
      value that is empty, a token or a complete quoted-string. */
  lemma NextParamCut(s: text, i: nat)
    requires i <= |s|
    ensures match NextParam(s, i) {
      case Got(a, n0, n1, v0, v1) =>
        && i <= a < n0 < n1 <= v0 <= v1 <= |s|
        && IsToken(s[n0..n1])
        && (v0 == v1 || IsToken(s[v0..v1]) || IsQuotedString(s[v0..v1]))
      case Stop(a, at) => i <= a <= at <= |s|
    }
  {
    hide NextParam, IsToken, AllChars, PrintQuoted;
    if NextParam(s, i).Got? {
      var p, x := ParamIsPrinted(s, i);
    }
  }

  /** The same for the list: the parameters seen are those written, up to where iteration stops. */
  lemma {:induction false} ListIsPrinted(s: text, i: nat) returns (ps: seq<Param>, x: text)
    requires i <= |s|
    ensures AllParams(ps) && Params(s, i) == SaidAll(ps)
    ensures s[i..Rejected(s, i).from] == PrintAll(ps) + x
    ensures IsOws(x) || (IsEquals(x) && EndsBare(ps) && Rejected(s, i).from == |s|)
    ensures EndsBare(ps) <==> LastBare(s, i)
    decreases |s| - i
  {
    hide NextParam, Shown, IsOws, OwsEnd, Param.Valid, Param.Print, Param.Said;
    var r := NextParam(s, i);
    if r.Stop? {
      StopFrom(s, i);
      OwsSlice(s, i);
      ps, x := [], s[i..r.from];
      assert [] + x == x;
    } else {
      var p, y := ParamIsPrinted(s, i);
      var qs, z := ListIsPrinted(s, r.v1);
      ps, x := [p] + qs, z;
      assert ps[1..] == qs;
      var k := Rejected(s, i).from;
      SliceJoin(s, i, r.v1, k);
      if y == [] {
        assert p.Print() + [] == p.Print();
        Assoc(p.Print(), PrintAll(qs), x);
      } else {
        EndOfString(s);
        x := y;
        assert PrintAll([]) == [] && p.Print() + [] == p.Print() && qs == [];
      }
    }
  }

  /** The last parameter has no value. */
  predicate EndsBare(ps: seq<Param>) { ps != [] && ps[|ps| - 1].value.Absent? }

  predicate LastBare(s: text, i: nat)
    requires i <= |s|
    decreases |s| - i
  {
    var r := NextParam(s, i);
    r.Got? && if NextParam(s, r.v1).Stop? then r.v0 == r.v1 else LastBare(s, r.v1)
  }

  lemma StopFrom(s: text, i: nat)
    requires i <= |s|
    ensures NextParam(s, i).from == OwsEnd(s, i)
  {
    hide OwsEnd, NameAfter;
  }

  lemma EndOfString(s: text)
    ensures NextParam(s, |s|) == Stop(|s|, |s|)
    ensures Params(s, |s|) == [] && Rejected(s, |s|) == Stop(|s|, |s|)
  {
    hide NextParam;
    OwsNone(s, |s|);
    NoneLeft(s, |s|);
  }
}
