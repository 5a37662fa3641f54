/** The iterator over a parameter list: param_iter of include/beast/http/detail/rfc7230.hpp and the
    iterator around it of include/beast/http/impl/rfc7230.ipp. */
module ParamList {
  import opened Bytes
  import opened Rfc7230
  import opened ParamGrammar
  import opened ParamScan

  method SkipOws(s: text, i: nat) returns (it: nat)
    requires i <= |s|
    ensures it == OwsEnd(s, i)
  {
    it := i;
    while it != |s|
      invariant i <= it <= |s| && OwsEnd(s, it) == OwsEnd(s, i)
    {
      var c := s[it];
      if c != ' ' && c != '\t' {
        break;
      }
      it := it + 1;
    }
  }

  method SkipToken(s: text, i: nat) returns (it: nat)
    requires i <= |s|
    ensures it == TokenEnd(s, i)
  {
    it := i;
    while it != |s| && IsTchar(s[it])
      invariant i <= it <= |s| && TokenEnd(s, it) == TokenEnd(s, i)
    {
      it := it + 1;
    }
  }

  /** it, first, last and v of the source; last is the end of s. */
  class ParamIter {
    const s: text
    var it: nat
    var first: nat
    var name: text
    var value: text

    ghost predicate Valid()
      reads this
    {
      it <= |s| && first <= |s|
    }

    constructor (s: text)
      ensures Valid() && this.s == s && it == 0 && first == 0
    {
      this.s := s;
      it, first := 0, 0;
      name, value := [], [];
    }

    predicate Empty()
      reads this
    {
      first == it
    }

    /** The quoted-string loop of increment(), after the opening quote. */
    method Quoted() returns (ok: bool)
      requires Valid()
      modifies `it
      ensures Valid() && (ok <==> QuotedEnd(s, old(it)).Ok?)
      ensures ok ==> it == QuotedEnd(s, old(it)).end
    {
      hide Lookup, IsQdchar, IsQpchar;
      while true
        invariant it <= |s| && QuotedEnd(s, it) == QuotedEnd(s, old(it))
        decreases |s| - it
      {
        if it == |s| {
          return false;
        }
        var c := s[it];
        it := it + 1;
        if c == '"' {
          return true;
        }
        if IsQdchar(c) {
          continue;
        }
        if c != '\\' {
          return false;
        }
        if it == |s| {
          return false;
        }
        c := s[it];
        it := it + 1;
        if !IsQpchar(c) {
          return false;
        }
      }
    }

    /** increment() from the value on: false where the source calls err(). */
    method IncrementValue(ghost a: nat, ghost n0: nat, ghost n1: nat) returns (ok: bool)
      requires Valid() && value == []
      modifies `it, `value
      ensures Valid()
      ensures ok <==> Value(s, a, n0, n1, old(it)).Got?
      ensures ok ==> var r := Value(s, a, n0, n1, old(it));
        r.v0 <= r.v1 <= |s| && it == r.v1 && value == s[r.v0..r.v1]
    {
      hide QuotedEnd, IsTchar;
      if it == |s| {
        return true;
      }
      if s[it] == '"' {
        var p2 := it;
        it := it + 1;
        ok := Quoted();
        if ok {
          value := s[p2..it];
        }
      } else {
        if !IsTchar(s[it]) {
          return false;
        }
        var p2 := it;
        it := SkipToken(s, it + 1);
        value := s[p2..it];
        ok := true;
      }
    }

    /** increment() from the end of the name on. */
    method IncrementAfterName(ghost a: nat, ghost n0: nat, ghost n1: nat) returns (ok: bool)
      requires Valid() && value == []
      modifies `it, `value
      ensures Valid()
      ensures ok <==> AfterName(s, a, n0, n1, old(it)).Got?
      ensures ok ==> var r := AfterName(s, a, n0, n1, old(it));
        r.v0 <= r.v1 <= |s| && it == r.v1 && value == s[r.v0..r.v1]
    {
      hide IsTchar, OwsEnd, Value;
      if it == |s| {
        return true;
      }
      if s[it] == ';' {
        return true;
      }
      if s[it] != '=' {
        return false;
      }
      it := it + 1;
      it := SkipOws(s, it);
      ok := IncrementValue(a, n0, n1);
    }

    /** increment() up to the end of the name. */
    method IncrementName() returns (ok: bool, ghost p0: nat)
      requires Valid()
      modifies `it, `name
      ensures Valid()
      ensures ok <==> NameAfter(s, old(it)).Name?
      ensures ok ==> var r := NameAfter(s, old(it)); p0 == r.n0 && it == r.n1 && name == s[r.n0..r.n1]
    {
      hide IsTchar, OwsEnd, TokenEnd;
      ok, p0 := false, 0;
      if it == |s| {
        return;
      }
      if s[it] != ';' {
        return;
      }
      it := it + 1;
      it := SkipOws(s, it);
      if it == |s| {
        return;
      }
      if !IsTchar(s[it]) {
        return;
      }
      var p := it;
      it := SkipToken(s, it + 1);
      name := s[p..it];
      ok, p0 := true, p;
    }

    /** increment(): the next parameter, or none, for which it goes back to first. */
    method Increment()
      requires Valid()
      modifies `it, `first, `name, `value
      ensures Valid()
      ensures var r := NextParam(s, old(it));
        && first == r.from && (Empty() <==> r.Stop?)
        && (r.Got? ==> it == r.v1 && name == s[r.n0..r.n1] && value == s[r.v0..r.v1])
    {
      hide IsTchar, AfterName, NameAfter, OwsEnd;
      name := [];
      value := [];
      it := SkipOws(s, it);
      first := it;
      ghost var p0;
      var ok;
      ok, p0 := IncrementName();
      if ok {
        ghost var p1 := it;
        it := SkipOws(s, it);
        ok := IncrementAfterName(first, p0, p1);
      }
      if !ok {
        it := first;
      }
    }
  }

  /** unquote(): a quoted string becomes what it says. */
  method Unquoted(raw: text) returns (s: text)
    requires IsQuotedString(raw)
    ensures s == Meaning(raw)
    ensures forall q :: AllChars(q) && raw == ['"'] + PrintQuoted(q) ==> s == Contents(q)
  {
    hide QuotedEnd, AllChars, PrintQuoted, Contents;
    ghost var q :| AllChars(q) && raw == ['"'] + PrintQuoted(q);
    QuotedWhole(raw, q);
    s := [];
    var it, end := 1, |raw| - 1;
    while it != end
      invariant 1 <= it <= end && QuotedEnd(raw, it) == Ok(|raw|)
      invariant s + Unquote(raw, it) == Unquote(raw, 1)
    {
      QuotedStep(raw, it);
      Assoc(s, [raw[if raw[it] == '\\' then it + 1 else it]], Unquote(raw, if raw[it] == '\\' then it + 2 else it + 1));
      if raw[it] == '\\' {
        it := it + 1;
      }
      s := s + [raw[it]];
      it := it + 1;
    }
    forall q | AllChars(q) && raw == ['"'] + PrintQuoted(q) ensures s == Contents(q) {
      QuotedWhole(raw, q);
    }
  }

  lemma QuotedWhole(raw: text, q: seq<QChar>)
    requires AllChars(q) && raw == ['"'] + PrintQuoted(q)
    ensures |raw| >= 2 && QuotedEnd(raw, 1) == Ok(|raw|) && Unquote(raw, 1) == Contents(q)
  {
    hide QuotedEnd, Unquote, AllChars;
    PrintQuotedSize(q);
    assert raw[1..1 + |PrintQuoted(q)|] == PrintQuoted(q);
    QuotedSpan(raw, 1, q);
    UnquoteSpan(raw, 1, q);
  }

  lemma QuotedStep(raw: text, i: nat)
    requires i + 1 < |raw| && QuotedEnd(raw, i) == Ok(|raw|)
    ensures raw[i] == '\\' ==> i + 2 < |raw| && QuotedEnd(raw, i + 2) == Ok(|raw|)
    ensures raw[i] != '\\' ==> QuotedEnd(raw, i + 1) == Ok(|raw|)
  {
    QdcharTable('\\');
    hide IsQdchar, IsQpchar;
  }

  /** param_list::const_iterator: the end is it == first == last. */
  class ListIterator {
    const pi: ParamIter

    ghost predicate Valid()
      reads this, pi
    {
      pi.Valid()
    }

    predicate AtEnd()
      reads this, pi
    {
      pi.it == |pi.s| && pi.first == |pi.s|
    }

    /** What an iterator that has been incremented from i shows. */
    ghost predicate Shows(i: nat)
      requires i <= |pi.s|
      reads this, pi
    {
      var r := NextParam(pi.s, i);
      && Valid() && (AtEnd() <==> r.Stop?)
      && (r.Got? ==> pi.it == r.v1 && (pi.name, pi.value) == Shown(pi.s, r))
    }

    constructor Begin(s: text)
      ensures fresh(pi) && pi.s == s && Shows(0)
    {
      pi := new ParamIter(s);
      new;
      Increment();
    }

    method Increment()
      requires Valid()
      modifies pi
      ensures Shows(old(pi.it))
    {
      hide NextParam, Unquote, IsQuotedString;
      NextParamCut(pi.s, pi.it);
      pi.Increment();
      if pi.Empty() {
        pi.it := |pi.s|;
        pi.first := |pi.s|;
      } else if pi.value != [] && pi.value[0] == '"' {
        assert !Tchar('"');
        pi.value := Unquoted(pi.value);
      }
    }
  }

  /** for(auto const& param : param_list{s}): it comes to an end, and sees Params. */
  method All(s: text) returns (ps: seq<(text, text)>)
    ensures ps == Params(s, 0)
  {
    hide NextParam, Meaning;
    ps := [];
    var list := new ListIterator.Begin(s);
    ghost var i := 0;
    while !list.AtEnd()
      invariant fresh(list.pi) && list.pi.s == s && i <= |s| && list.Shows(i)
      invariant ps + Params(s, i) == Params(s, 0)
      decreases |s| - i
    {
      ps := ps + [(list.pi.name, list.pi.value)];
      i := list.pi.it;
      list.Increment();
    }
  }

  // ---- An example ----

  /** A list with white space, a token and a quoted value: HTAB ; SP HTAB SP xyz=1 SP ; SP ijk="q\"t" */
  const EXAMPLE: text := ['\t', ';', ' ', '\t', ' ', 'x', 'y', 'z', '=', '1', ' ', ';', ' ', 'i', 'j', 'k', '=', '"',
                          'q', '\\', '"', 't', '"']

  const Q_T: seq<QChar> := [Plain('q'), Escaped('"'), Plain('t')]

  const FIRST: Param := Param(['\t'], [' ', '\t', ' '], ['x', 'y', 'z'], [], [], Token(['1']))

  const SECOND: Param := Param([' '], [' '], ['i', 'j', 'k'], [], [], Quoted(Q_T))

  lemma QuotedExample()
    ensures AllChars(Q_T) && Contents(Q_T) == ['q', '"', 't'] && PrintQuoted(Q_T) == ['q', '\\', '"', 't', '"']
  {
    assert Q_T[1..] == [Escaped('"'), Plain('t')] && Q_T[1..][1..] == [Plain('t')] && Q_T[1..][1..][1..] == [];
  }

  lemma FirstExample()
    ensures FIRST.Valid() && FIRST.Said() == (['x', 'y', 'z'], ['1'])
    ensures FIRST.Print() == ['\t', ';', ' ', '\t', ' ', 'x', 'y', 'z', '=', '1']
  {
  }

  lemma SecondExample()
    ensures SECOND.Valid() && SECOND.Said() == (['i', 'j', 'k'], ['q', '"', 't'])
    ensures SECOND.Print() == [' ', ';', ' ', 'i', 'j', 'k', '=', '"', 'q', '\\', '"', 't', '"']
  {
    hide AllChars, Contents, PrintQuoted;
    QuotedExample();
  }

  lemma TwoParams(p: Param, q: Param)
    requires p.Valid() && q.Valid()
    ensures Params(p.Print() + q.Print(), 0) == [p.Said(), q.Said()]
  {
    hide Params, Param.Print, Param.Said, Param.Valid;
    var list := [p, q];
    assert list[1..] == [q] && list[1..][1..] == [];
    assert SaidAll([q]) == [q.Said()] + SaidAll([]) && SaidAll(list) == [p.Said()] + SaidAll([q]);
    PrintAllAppend([], p);
    PrintAllAppend([p], q);
    assert [] + [p] == [p] && [p] + [q] == list && [] + p.Print() == p.Print();
    assert PrintAll(list) + [] == p.Print() + q.Print();
    ListRoundTrip(list, []);
  }

  /** It is seen as its two parameters, the second one without its quotes. */
  method Example() returns (ps: seq<(text, text)>)
    ensures ps == [(['x', 'y', 'z'], ['1']), (['i', 'j', 'k'], ['q', '"', 't'])]
  {
    hide Params, Param.Print, Param.Said, Param.Valid;
    FirstExample();
    SecondExample();
    TwoParams(FIRST, SECOND);
    assert FIRST.Print() + SECOND.Print() == EXAMPLE;
    ps := All(EXAMPLE);
  }
}
