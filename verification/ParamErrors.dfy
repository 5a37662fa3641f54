/** Parameter lists with an error: where the first invalid character is, and what the iteration
    makes of it. */
module ParamErrors {
  import opened Bytes
  import opened Rfc7230
  import opened ParamGrammar
  import opened ParamScan

  lemma {:induction false} OwsEndAgrees(s: text, t: text, i: nat, k: nat)
    requires i <= k <= |s| && k <= |t| && s[..k] == t[..k]
    ensures OwsEnd(s, i) < k ==> OwsEnd(t, i) == OwsEnd(s, i)
    ensures k == |t| && OwsEnd(s, i) >= k ==> OwsEnd(t, i) == k
    decreases k - i
  {
    hide Ows;
    if i < k {
      assert s[i] == s[..k][i] == t[..k][i] == t[i];
      OwsEndAgrees(s, t, i + 1, k);
    }
  }

  lemma {:induction false} TokenEndAgrees(s: text, t: text, i: nat, k: nat)
    requires i <= k <= |s| && k <= |t| && s[..k] == t[..k]
    ensures TokenEnd(s, i) < k ==> TokenEnd(t, i) == TokenEnd(s, i)
    ensures k == |t| && TokenEnd(s, i) >= k ==> TokenEnd(t, i) == k
    decreases k - i
  {
    hide IsTchar;
    if i < k {
      assert s[i] == s[..k][i] == t[..k][i] == t[i];
      TokenEndAgrees(s, t, i + 1, k);
    }
  }

  lemma {:induction false} QuotedEndAgrees(s: text, t: text, i: nat, k: nat)
    requires i <= k <= |s| && k <= |t| && s[..k] == t[..k]
    ensures match QuotedEnd(s, i) {
      case Ok(e) => e <= k ==> QuotedEnd(t, i) == Ok(e)
      case Bad(at) => at < k || (at == k && k == |t|) ==> QuotedEnd(t, i) == Bad(at)
    }
    decreases k - i
  {
    hide IsQdchar, IsQpchar;
    if i < k {
      assert s[i] == s[..k][i] == t[..k][i] == t[i];
      if IsQdchar(s[i]) {
        QuotedEndAgrees(s, t, i + 1, k);
      } else if i + 1 < k {
        assert s[i + 1] == s[..k][i + 1] == t[..k][i + 1] == t[i + 1];
        QuotedEndAgrees(s, t, i + 2, k);
      }
    }
  }

  /** r was found in a string whose first k characters are those of t; r' is found in t.  A stop
      may turn into a parameter without value when t is cut there. */
  ghost predicate Carries(r: Step, t: text, k: nat, r': Step) {
    match r
    case Got(_, _, _, _, v1) => v1 < k || (v1 == k && k == |t|) ==> r' == r
    case Stop(a, at) =>
      && (at < k ==> r' == r)
      && (at == k && k == |t| ==> r' == r || (r'.Got? && r'.v0 == r'.v1 == k))
  }

  lemma ValueCarries(s: text, t: text, a: nat, n0: nat, n1: nat, d: nat, k: nat)
    requires d <= k <= |s| && k <= |t| && s[..k] == t[..k]
    ensures Carries(Value(s, a, n0, n1, d), t, k, Value(t, a, n0, n1, d))
  {
    hide IsTchar, QuotedEnd, TokenEnd;
    if d < k {
      assert s[d] == s[..k][d] == t[..k][d] == t[d];
      QuotedEndAgrees(s, t, d + 1, k);
      TokenEndAgrees(s, t, d + 1, k);
    }
  }

  lemma AfterNameCarries(s: text, t: text, a: nat, n0: nat, n1: nat, c: nat, k: nat)
    requires c <= k <= |s| && k <= |t| && s[..k] == t[..k]
    ensures Carries(AfterName(s, a, n0, n1, c), t, k, AfterName(t, a, n0, n1, c))
  {
    hide Value, OwsEnd;
    if c < k {
      assert s[c] == s[..k][c] == t[..k][c] == t[c];
      OwsEndAgrees(s, t, c + 1, k);
      if OwsEnd(s, c + 1) <= k {
        ValueCarries(s, t, a, n0, n1, OwsEnd(s, c + 1), k);
      }
      OwsAtCut(s, t, c + 1, k);
    }
  }

  /** White space that ends at k ends there in t too, unless t goes on with white space. */
  lemma OwsAtCut(s: text, t: text, i: nat, k: nat)
    requires i <= k <= |s| && k <= |t| && s[..k] == t[..k]
    ensures OwsEnd(s, i) == k == |t| ==> OwsEnd(t, i) == k
  {
    OwsEndAgrees(s, t, i, k);
  }

  lemma NameCarries(s: text, t: text, a: nat, k: nat)
    requires a <= k <= |s| && k <= |t| && s[..k] == t[..k]
    ensures match NameAfter(s, a) {
      case NoName(at) => at < k || (at == k && k == |t|) ==> NameAfter(t, a) == NoName(at)
      case Name(n0, n1) => n1 < k || (n1 == k && k == |t|) ==> NameAfter(t, a) == Name(n0, n1)
    }
  {
    hide OwsEnd, TokenEnd, IsTchar;
    if a < k {
      assert s[a] == s[..k][a] == t[..k][a] == t[a];
      OwsEndAgrees(s, t, a + 1, k);
      var n0 := OwsEnd(s, a + 1);
      if n0 < k {
        assert s[n0] == s[..k][n0] == t[..k][n0] == t[n0];
        TokenEndAgrees(s, t, n0 + 1, k);
      }
    }
  }

  lemma NextParamCarries(s: text, t: text, i: nat, k: nat)
    requires i <= k <= |s| && k <= |t| && s[..k] == t[..k]
    ensures Carries(NextParam(s, i), t, k, NextParam(t, i))
  {
    hide OwsEnd, NameAfter, AfterName;
    OwsEndAgrees(s, t, i, k);
    var a := OwsEnd(s, i);
    if a <= k && (a < k || k == |t|) {
      NameCarries(s, t, a, k);
      match NameAfter(s, a)
      case NoName(at) =>
      case Name(n0, n1) =>
        if n1 <= k {
          OwsEndAgrees(s, t, n1, k);
          if OwsEnd(s, n1) <= k {
            AfterNameCarries(s, t, a, n0, n1, OwsEnd(s, n1), k);
          }
        }
    }
  }

  lemma ShownAgrees(s: text, t: text, r: Step, k: nat)
    requires r.Got? && Within(s, 0, r) && r.v1 <= k <= |s| && k <= |t| && s[..k] == t[..k]
    ensures Shown(s, r) == Shown(t, r)
  {
    hide Meaning;
    SliceAgrees(s, t, r.n0, r.n1, k);
    SliceAgrees(s, t, r.v0, r.v1, k);
  }

  lemma SliceAgrees(s: text, t: text, x: nat, y: nat, k: nat)
    requires x <= y <= k <= |s| && k <= |t| && s[..k] == t[..k]
    ensures s[x..y] == t[x..y]
  {
    SlicePrefix(s, x, y, k);
    SlicePrefix(t, x, y, k);
  }

  /** The character that stops the iteration cannot be made up for: whatever follows it, the same
      parameters are seen and it stops there. */
  lemma {:induction false} RejectionIsFinal(s: text, t: text, i: nat)
    requires i <= |s| && Rejected(s, i).at < |s| && Rejected(s, i).at < |t|
    requires var k := Rejected(s, i).at + 1; s[..k] == t[..k]
    ensures Rejected(t, i) == Rejected(s, i) && Params(t, i) == Params(s, i)
    decreases |s| - i
  {
    hide NextParam, Shown;
    var k, r := Rejected(s, i).at + 1, NextParam(s, i);
    NextParamCarries(s, t, i, k);
    if r.Got? {
      RejectionIsFinal(s, t, r.v1);
      ShownAgrees(s, t, r, k);
    }
  }

  // ---- The first invalid character ----

  /** A quoted string that stops in the middle can be completed. */
  lemma {:induction false} QuotedCompletable(s: text, i: nat) returns (q: seq<QChar>, e: text)
    requires i <= |s| && QuotedEnd(s, i).Bad?
    ensures AllChars(q) && s[i..QuotedEnd(s, i).at] + e == PrintQuoted(q)
    decreases |s| - i
  {
    hide IsQdchar, IsQpchar, PrintQuoted, AllChars, QChar.Print, QChar.Valid;
    var k := QuotedEnd(s, i).at;
    if k == i {
      q := ClosingQuote();
      e := ['"'];
      assert s[i..i] + e == e;
    } else if IsQdchar(s[i]) {
      q, e := QuotedCompletable(s, i + 1);
      q := PlainMore(s, i, k, q, e);
    } else if k == i + 1 {
      q, e := EscapeCompletable();
      assert s[i..k] == ['\\'];
    } else {
      q, e := QuotedCompletable(s, i + 2);
      q := EscapedMore(s, i, k, q, e);
    }
  }

  lemma EscapeCompletable() returns (q: seq<QChar>, e: text)
    ensures AllChars(q) && ['\\'] + e == PrintQuoted(q)
  {
    q, e := [Escaped(' ')], [' ', '"'];
    assert q[1..] == [];
  }

  /** A parameter's head, "=" and a value that e completes. */
  lemma EqualsJoin(s: text, i: nat, c: nat, d: nat, at: nat, p: Param, v: Written, e: text)
    requires i <= c < |s| && s[c] == '=' && d == OwsEnd(s, c + 1) && d <= at <= |s|
    requires p.Valid() && p.value.Absent? && s[i..c] == p.Print()
    requires v.Valid() && !v.Absent? && s[d..at] + e == v.Print()
    ensures WithValue(p, s[c + 1..d], v).Valid() && s[i..at] + e == WithValue(p, s[c + 1..d], v).Print()
  {
    hide OwsEnd, IsOws, Param.Print, Param.Valid, Written.Valid, Written.Print, IsEquals, WithValue;
    EqualsSlice(s, c);
    WithValuePrint(p, s[c + 1..d], v);
    SliceJoin(s, i, c, at);
    SliceJoin(s, c, d, at);
    Assoc(s[c..d], s[d..at], e);
    Assoc(['='], s[c + 1..d], v.Print());
    Assoc(p.Print(), s[c..at], e);
  }

  /** Where increment() stops inside a parameter, the characters before can be completed to one. */
  lemma StopCompletable(s: text, i: nat) returns (p: Param, e: text)
    requires i <= |s| && NextParam(s, i).Stop? && NextParam(s, i).at > NextParam(s, i).from
    ensures p.Valid() && s[i..NextParam(s, i).at] + e == p.Print()
  {
    hide IsTchar, Value, OwsEnd, NameAfter, IsOws, Param.Print, Param.Valid, Written.Valid, Written.Print, WithValue;
    var a, at := NextParam(s, i).from, NextParam(s, i).at;
    if NameAfter(s, a).NoName? {
      p, e := NameCompletable(s, i);
    } else {
      p := HeadIsPrinted(s, i);
      var n0, n1 := NameAfter(s, a).n0, NameAfter(s, a).n1;
      var c := OwsEnd(s, n1);
      if s[c] == '=' {
        var d := OwsEnd(s, c + 1);
        var v;
        v, e := ValueCompletable(s, a, n0, n1, d);
        EqualsJoin(s, i, c, d, at, p, v, e);
        p := WithValue(p, s[c + 1..d], v);
      } else {
        e := [];
        assert s[i..at] + [] == s[i..at];
      }
    }
  }

  lemma NameCompletable(s: text, i: nat) returns (p: Param, e: text)
    requires i <= |s| && NameAfter(s, OwsEnd(s, i)).NoName? && NameAfter(s, OwsEnd(s, i)).at > OwsEnd(s, i)
    ensures p.Valid() && s[i..NameAfter(s, OwsEnd(s, i)).at] + e == p.Print()
  {
    hide IsTchar, OwsEnd, IsOws;
    var a := OwsEnd(s, i);
    var k := NameAfter(s, a).at;
    OwsSlice(s, i);
    OwsSlice(s, a + 1);
    NoOws();
    e := ['a'];
    p := Param(s[i..a], s[a + 1..k], ['a'], [], [], Absent);
    assert s[a..a + 1] == [';'];
    SliceJoin(s, a, a + 1, k);
    SliceJoin(s, i, a, k);
    Assoc(s[i..a], s[a..k], e);
    Assoc([';'], s[a + 1..k], e);
    assert e + ([] + []) == e;
  }

  lemma ValueCompletable(s: text, a: nat, n0: nat, n1: nat, d: nat) returns (v: Written, e: text)
    requires d <= |s| && Value(s, a, n0, n1, d).Stop?
    ensures v.Valid() && !v.Absent? && s[d..Value(s, a, n0, n1, d).at] + e == v.Print()
  {
    hide IsTchar, QuotedEnd, TokenEnd, AllChars;
    var at := Value(s, a, n0, n1, d).at;
    if s[d] == '"' {
      var q;
      q, e := QuotedCompletable(s, d + 1);
      v := Quoted(q);
      assert s[d..d + 1] == ['"'];
      SliceJoin(s, d, d + 1, at);
      Assoc(s[d..d + 1], s[d + 1..at], e);
    } else {
      v, e := Token(['a']), ['a'];
      assert s[d..at] + e == e;
    }
  }

  /** A parameter that ends with "=" can be given a value. */
  lemma EqualsCompletable(p: Param, x: text) returns (q: Param)
    requires p.Valid() && p.value.Absent? && IsEquals(x)
    ensures q.Valid() && p.Print() + x + ['a'] == q.Print()
  {
    hide Param.Print, Param.Valid, IsOws;
    TokenA();
    WithValuePrint(p, x[1..], Token(['a']));
    q := WithValue(p, x[1..], Token(['a']));
    assert x == ['='] + x[1..];
    Assoc(p.Print(), x, ['a']);
    Assoc(['='], x[1..], ['a']);
  }

  lemma TokenA()
    ensures IsToken(['a'])
  {
  }

  lemma {:induction false} ViableFrom(s: text, i: nat) returns (ps: seq<Param>, tail: text, e: text)
    requires i <= |s|
    ensures AllParams(ps) && IsOws(tail) && s[i..Rejected(s, i).at] + e == PrintAll(ps) + tail
    decreases |s| - i
  {
    hide NextParam, IsOws, OwsEnd, Param.Valid, Param.Print;
    var r, k := NextParam(s, i), Rejected(s, i).at;
    NoOws();
    if r.Got? {
      var p, x := ParamIsPrinted(s, i);
      if x == [] {
        ps, tail, e := ViableFrom(s, r.v1);
        assert p.Print() + [] == p.Print();
        SliceJoin(s, i, r.v1, k);
        Assoc(s[i..r.v1], s[r.v1..k], e);
        Assoc(p.Print(), PrintAll(ps), tail);
        assert ([p] + ps)[1..] == ps;
        ps := [p] + ps;
      } else {
        EndOfString(s);
        var q := EqualsCompletable(p, x);
        ps, tail, e := [q], [], ['a'];
        PrintOne(q);
      }
    } else if r.at == r.from {
      StopFrom(s, i);
      OwsSlice(s, i);
      ps, tail, e := [], s[i..k], [];
      assert s[i..k] + [] == [] + s[i..k];
    } else {
      var p;
      p, e := StopCompletable(s, i);
      ps, tail := [p], [];
      PrintOne(p);
    }
  }

  lemma PrintOne(p: Param)
    ensures PrintAll([p]) + [] == p.Print()
  {
    hide Param.Print;
    assert [p][1..] == [];
    assert p.Print() + PrintAll([]) + [] == p.Print();
  }

  lemma {:induction false} RejectedAgrees(s: text, t: text)
    requires Rejected(s, 0).at < |s| && Rejected(s, 0).at < |t|
    requires var k := Rejected(s, 0).at + 1; s[..k] == t[..k]
    ensures !IsList(t)
  {
    hide Rejected, Params, ListOf;
    RejectionIsFinal(s, t, 0);
    if IsList(t) {
      var ps, tail :| ListOf(t, ps, tail);
      ListRead(t, ps, tail);
    }
  }

  lemma ListRead(t: text, ps: seq<Param>, tail: text)
    requires ListOf(t, ps, tail)
    ensures Params(t, 0) == SaidAll(ps) && Rejected(t, 0).from == |t|
  {
    hide Params, Rejected, PrintAll, SaidAll, AllParams, IsOws;
    ListRoundTrip(ps, tail);
  }

  lemma ViableFront(s: text, k: nat, m: nat)
    requires k <= m <= |s| && Viable(s[..m])
    ensures Viable(s[..k])
  {
    hide IsList;
    var e :| IsList(s[..m] + e);
    assert s[..k] + (s[k..m] + e) == s[..m] + e;
  }

  /** The character at which the iteration stops is the first invalid one: a front of the string can
      be completed to a parameter list exactly when it does not go beyond it. */
  lemma FirstInvalid(s: text, k: nat)
    requires k <= |s|
    ensures Viable(s[..k]) <==> k <= Rejected(s, 0).at
  {
    hide Rejected, Params, IsList;
    var at := Rejected(s, 0).at;
    if k <= at {
      var ps, tail, e := ViableFrom(s, 0);
      assert s[0..at] == s[..at];
      assert ListOf(s[..at] + e, ps, tail);
      assert IsList(s[..at] + e) by { IsListOf(s[..at] + e, ps, tail); }
      ViableFront(s, k, at);
    } else {
      forall e ensures !IsList(s[..k] + e) {
        assert (s[..k] + e)[..at + 1] == s[..at + 1];
        RejectedAgrees(s, s[..k] + e);
      }
    }
  }

  lemma IsListOf(s: text, ps: seq<Param>, tail: text)
    requires ListOf(s, ps, tail)
    ensures IsList(s)
  {
  }

  // ---- Lists that are read to their end ----

  /** A name at the end of the string, with or without "=" after it, is read as a parameter. */
  lemma NameAtEndSpan(s: text, i: nat, p: Param, x: text)
    requires i <= |s| && p.Valid() && p.value.Absent? && (x == [] || IsEquals(x))
    requires At(s, i, p.Print() + x) && i + |p.Print() + x| == |s|
    ensures var r := NextParam(s, i); r.Got? && r.v0 == r.v1 == |s| && Shown(s, r) == p.Said()
  {
    hide IsOws, IsToken, Param.Print, Param.Valid, Written.Valid, OwsEnd, NameAfter, At, IsTchar, TokenEnd, Tchar;
    hide AfterName, NextParam, Shown, IsEquals, Ows;
    AtSplit(s, i, p.Print(), x, i + |p.Print()|);
    var n0, n1 := PartsOf(s, i, p);
    var c := n1 + |p.o3|;
    PartsOws(p);
    if x == [] {
      BareAtEnd(s, n1, p);
    } else {
      EqualsAtEnd(s, c, x);
      AfterNameEquals(s, n1, p);
    }
    NameSpan(s, i, p, n0, n1);
    OwsSkip(s, n1, p.o3);
    OwsAtEnd(s, c);
    GotAtEnd(s, i, i + |p.o1|, n0, n1, c);
    ShownAtEnd(s, i + |p.o1|, n0, n1);
  }

  /** A `=` with white space at the end of the string. */
  lemma EqualsAtEnd(s: text, c: nat, x: text)
    requires At(s, c, x) && IsEquals(x) && c + |x| == |s|
    ensures At(s, c, ['=']) && c < |s| && s[c] == '=' && OwsEnd(s, c + 1) == |s|
  {
    hide IsOws, OwsEnd, At;
    FirstOf(s, c, x);
    assert x == ['='] + x[1..];
    AtSplit(s, c, ['='], x[1..], c + 1);
    OwsSkip(s, c + 1, x[1..]);
    OwsNone(s, |s|);
  }

  lemma OwsAtEnd(s: text, c: nat)
    requires c <= |s| && (c < |s| ==> s[c] == '=')
    ensures OwsEnd(s, c) == c
  {
    OwsNone(s, c);
  }

  lemma GotAtEnd(s: text, i: nat, a: nat, n0: nat, n1: nat, c: nat)
    requires i <= |s| && a <= |s| && OwsEnd(s, i) == a && NameAfter(s, a) == Name(n0, n1)
    requires n1 <= |s| && OwsEnd(s, n1) == c
    requires c < |s| ==> s[c] == '=' && OwsEnd(s, c + 1) == |s|
    ensures NextParam(s, i) == Got(a, n0, n1, |s|, |s|)
  {
    hide OwsEnd, NameAfter, QuotedEnd, TokenEnd, IsTchar;
  }

  lemma ShownAtEnd(s: text, a: nat, n0: nat, n1: nat)
    requires a < n0 < n1 <= |s|
    ensures Shown(s, Got(a, n0, n1, |s|, |s|)) == (s[n0..n1], [])
  {
    hide Unquote;
    assert s[|s|..|s|] == [];
    MeaningNone();
  }

  lemma BareAtEnd(s: text, n1: nat, p: Param)
    requires IsOws(p.o3) && At(s, n1, p.o3) && n1 + |p.o3| == |s|
    ensures n1 < |s| ==> !Tchar(s[n1])
  {
    hide Tchar;
    if p.o3 != [] {
      FirstOf(s, n1, p.o3);
      OwsFirst(p.o3);
      Delimiter(s[n1]);
    }
  }

  lemma AfterNameEquals(s: text, n1: nat, p: Param)
    requires IsOws(p.o3) && At(s, n1, p.o3) && n1 + |p.o3| < |s| && s[n1 + |p.o3|] == '='
    ensures !Tchar(s[n1])
  {
    hide Tchar;
    if p.o3 != [] {
      FirstOf(s, n1, p.o3);
      OwsFirst(p.o3);
    }
    Delimiter(s[n1]);
  }

  /** A list with a name at its end is read to the end, and its last parameter has no value. */
  lemma {:induction false} NameAtEndListSpan(s: text, i: nat, ps: seq<Param>, p: Param, x: text)
    requires i <= |s| && AllParams(ps) && p.Valid() && p.value.Absent? && (x == [] || IsEquals(x))
    requires At(s, i, PrintAll(ps) + (p.Print() + x)) && i + |PrintAll(ps) + (p.Print() + x)| == |s|
    ensures LastBare(s, i) && Rejected(s, i).from == |s| && Params(s, i) == SaidAll(ps) + [p.Said()]
    decreases |ps|
  {
    hide OwsEnd, NextParam, Param.Valid, Param.Print, Param.Said, Shown, IsOws, Ows, At, IsEquals;
    EndOfString(s);
    if ps == [] {
      assert [] + (p.Print() + x) == p.Print() + x;
      NameAtEndSpan(s, i, p, x);
      assert [p.Said()] + [] == [] + [p.Said()];
    } else {
      var q, more := ps[0], ps[1..];
      var e := i + |q.Print()|;
      Assoc(q.Print(), PrintAll(more), p.Print() + x);
      AtSplit(s, i, q.Print(), PrintAll(more) + (p.Print() + x), e);
      if more == [] {
        assert [] + (p.Print() + x) == p.Print() + x;
        AtSplit(s, e, p.Print(), x, e + |p.Print()|);
        ParamStarts(s, e, p);
      } else {
        Assoc(more[0].Print(), PrintAll(more[1..]), p.Print() + x);
        AtSplit(s, e, more[0].Print(), PrintAll(more[1..]) + (p.Print() + x), e + |more[0].Print()|);
        ParamStarts(s, e, more[0]);
      }
      ParamSpan(s, i, q, e);
      NameAtEndListSpan(s, e, more, p, x);
      ParamsSkip(s, e);
      LastBareSkip(s, e);
      Assoc([q.Said()], SaidAll(more), [p.Said()]);
    }
  }

  lemma LastBareSkip(s: text, i: nat)
    requires i <= |s|
    ensures LastBare(s, OwsEnd(s, i)) == LastBare(s, i)
  {
    hide OwsEnd, NameAfter, AfterName;
    OwsNone(s, OwsEnd(s, i));
  }

  /** Which strings are iterated to their end: parameter lists, and those where the value after the
      last "=" is missing. */
  lemma ReadToEnd(s: text)
    ensures Rejected(s, 0).from == |s| <==> IsList(s) || EndsInName(s)
    ensures EndsInName(s) <==> Rejected(s, 0).from == |s| && LastBare(s, 0)
  {
    hide Rejected, Params, AllParams, PrintAll, SaidAll, IsOws, IsEquals, Param.Print, Param.Valid, LastBare, EndsBare;
    if Rejected(s, 0).from == |s| {
      var ps, x := ListIsPrinted(s, 0);
      assert s[0..|s|] == s;
      if IsOws(x) {
        assert ListOf(s, ps, x);
      }
      if EndsBare(ps) {
        NameIsLast(s, ps, x);
      }
    }
    if IsList(s) {
      var ps, tail :| ListOf(s, ps, tail);
      ListRead(s, ps, tail);
    }
    if EndsInName(s) {
      var ps, p, x :| NameAtEnd(s, ps, p, x);
      NameAtEndRead(s, ps, p, x);
    }
  }

  lemma NameAtEndRead(s: text, ps: seq<Param>, p: Param, x: text)
    requires NameAtEnd(s, ps, p, x)
    ensures LastBare(s, 0) && Rejected(s, 0).from == |s|
  {
    hide Rejected, Params, AllParams, PrintAll, SaidAll, IsEquals, Param.Print, Param.Valid, LastBare;
    assert s[0..0 + |s|] == s;
    NameAtEndListSpan(s, 0, ps, p, x);
  }

  lemma {:induction false} PrintAllLast(ps: seq<Param>)
    requires ps != []
    ensures PrintAll(ps) == PrintAll(ps[..|ps| - 1]) + ps[|ps| - 1].Print()
  {
    hide Param.Print;
    assert ps == ps[..|ps| - 1] + [ps[|ps| - 1]];
    PrintAllAppend(ps[..|ps| - 1], ps[|ps| - 1]);
  }

  /** White space after a parameter without value belongs to it. */
  lemma MoreOws(p: Param, x: text)
    requires p.Valid() && p.value.Absent? && IsOws(x)
    ensures var q := p.(o3 := p.o3 + x); q.Valid() && q.Print() == p.Print() + x
  {
    hide IsToken, Ows;
    assert (p.o3 + x) + [] == (p.o3 + []) + x;
    Assoc(p.name, p.o3 + [], x);
    Assoc(p.o2, p.name + (p.o3 + []), x);
    Assoc([';'], p.o2 + (p.name + (p.o3 + [])), x);
    Assoc(p.o1, [';'] + (p.o2 + (p.name + (p.o3 + []))), x);
  }

  lemma NameIsLast(s: text, ps: seq<Param>, x: text)
    requires AllParams(ps) && EndsBare(ps) && (IsOws(x) || IsEquals(x)) && s == PrintAll(ps) + x
    ensures EndsInName(s)
  {
    hide IsOws, IsEquals, Param.Print, Param.Valid, PrintAll;
    var n := |ps| - 1;
    var front, p := ps[..n], ps[n];
    PrintAllLast(ps);
    Assoc(PrintAll(front), p.Print(), x);
    if IsEquals(x) {
      assert NameAtEnd(s, front, p, x);
    } else {
      MoreOws(p, x);
      var q := p.(o3 := p.o3 + x);
      assert q.Print() + [] == q.Print();
      assert NameAtEnd(s, front, q, []);
    }
  }

  // ---- What the documentation promises ----

  /** A parameter without value is followed by a semicolon or by nothing. */
  lemma AfterBare(s: text, i: nat)
    requires i <= |s| && NextParam(s, i).Got? && NextParam(s, i).v0 == NextParam(s, i).v1 < |s|
    ensures s[NextParam(s, i).v1] == ';'
  {
    hide OwsEnd, NameAfter, IsTchar, QuotedEnd;
  }

  /** Where a semicolon stands increment() does not stop at once. */
  lemma AtSemicolon(s: text, i: nat)
    requires i < |s| && s[i] == ';'
    ensures NextParam(s, i).Stop? ==> NextParam(s, i).at > NextParam(s, i).from
  {
    hide AfterName, TokenEnd, IsTchar;
    OwsNone(s, i);
    hide OwsEnd;
  }

  /** s is iterated as its front up to the character at which it stops is, or the front has one
      parameter more. */
  lemma {:induction false} CutFrom(s: text, t: text, i: nat)
    requires i <= |s| && Rejected(s, i).at < |s| && t == s[..Rejected(s, i).at]
    ensures
      || (Params(t, i) == Params(s, i) && !(LastBare(t, i) && Rejected(t, i).from == |t|))
      || (LastBare(t, i) && Rejected(t, i).from == |t| && exists name :: Params(t, i) == Params(s, i) + [(name, [])])
    decreases |s| - i
  {
    hide NextParam, Shown;
    var k, r := Rejected(s, i).at, NextParam(s, i);
    var r' := NextParam(t, i);
    assert t[..k] == t;
    NextParamCarries(s, t, i, k);
    EndOfString(t);
    if r.Got? {
      CutFrom(s, t, r.v1);
      ShownAgrees(s, t, r, k);
      NextParamCarries(s, t, r.v1, k);
      if r.v0 == r.v1 {
        AfterBare(s, i);
        AtSemicolon(s, r.v1);
      }
      if name :| Params(t, r.v1) == Params(s, r.v1) + [(name, [])] {
        Assoc([Shown(s, r)], Params(s, r.v1), [(name, [])]);
        assert Params(t, i) == Params(s, i) + [(name, [])];
      }
    } else if r' != r {
      ShownBare(t, r');
      assert Params(t, i) == [Shown(t, r')] + [];
      assert Params(t, i) == Params(s, i) + [(Shown(t, r').0, [])];
    }
  }

  lemma ShownBare(t: text, r: Step)
    requires r.Got? && Within(t, 0, r) && r.v0 == r.v1
    ensures Shown(t, r).1 == []
  {
  }

  /** The documentation of param_list promises that a string with an error is iterated as if it had
      been cut in front of the first invalid character.  That holds exactly when what is in front
      of this character does not end in a name, OWS, and possibly "=" and OWS; if it does, then
      the iteration drops the parameter that the cut string has. */
  lemma CutAtInvalid(s: text, k: nat)
    requires k < |s| && Viable(s[..k]) && !Viable(s[..k + 1])
    ensures Params(s[..k], 0) == Params(s, 0) <==> !EndsInName(s[..k])
    ensures EndsInName(s[..k]) ==> exists name :: Params(s[..k], 0) == Params(s, 0) + [(name, [])]
  {
    hide Params, Rejected, Viable, EndsInName, IsList, LastBare;
    FirstInvalid(s, k);
    FirstInvalid(s, k + 1);
    CutFrom(s, s[..k], 0);
    ReadToEnd(s[..k]);
  }

  /** A list for which the promise fails: ";x=," yields nothing, ";x=" yields x. */
  lemma DroppedParameter()
    ensures var s: text := [';', 'x', '=', ','];
      && Viable(s[..3]) && !Viable(s[..4]) && EndsInName(s[..3])
      && Params(s, 0) == [] && Params(s[..3], 0) == [(['x'], [])]
  {
    hide Viable, Params, Rejected, IsList, EndsInName;
    var s: text := [';', 'x', '=', ','];
    var t: text := [';', 'x', '='];
    assert s[..3] == t;
    Dropped();
    FirstInvalid(s, 3);
    FirstInvalid(s, 4);
    var p := Param([], [], ['x'], [], [], Absent);
    NameX();
    assert NameAtEnd(t, [], p, ['=']) by {
      assert t == [] + (p.Print() + ['=']);
    }
    EndsInNameOf(t, [], p, ['=']);
    assert t[0..0 + 3] == t && [] + (p.Print() + ['=']) == t;
    NameAtEndListSpan(t, 0, [], p, ['=']);
    assert SaidAll([]) + [p.Said()] == [p.Said()];
  }

  lemma EndsInNameOf(s: text, ps: seq<Param>, p: Param, x: text)
    requires NameAtEnd(s, ps, p, x)
    ensures EndsInName(s)
  {
  }

  lemma NameX()
    ensures IsToken(['x']) && IsOws([]) && IsEquals(['='])
  {
  }

  lemma Dropped()
    ensures var s: text := [';', 'x', '=', ',']; Params(s, 0) == [] && Rejected(s, 0) == Stop(0, 3)
  {
    var s: text := [';', 'x', '=', ','];
    assert !Ows(';') && !Ows('x') && !Ows('=') && !Ows(',');
    assert IsTchar('x') && !IsTchar('=') && !IsTchar(',');
    hide IsTchar, Ows, OwsEnd, TokenEnd, NameAfter, Value, QuotedEnd;
    OwsNone(s, 0);
    OwsNone(s, 1);
    OwsNone(s, 2);
    OwsNone(s, 3);
    TokenNone(s, 2);
    NameFound(s, 0, 1, 2);
    NoValue(s, 0, 1, 2, 3);
    assert NextParam(s, 0) == Stop(0, 3);
  }

  lemma TokenNone(s: text, i: nat)
    requires i < |s| && !IsTchar(s[i])
    ensures TokenEnd(s, i) == i
  {
  }

  lemma NoValue(s: text, a: nat, n0: nat, n1: nat, d: nat)
    requires d < |s| && s[d] != '"' && !IsTchar(s[d])
    ensures Value(s, a, n0, n1, d) == Stop(a, d)
  {
    hide IsTchar, TokenEnd, QuotedEnd;
  }
}
