/** Parameter lists as the grammar in include/beast/http/rfc7230.hpp has them: what can be written,
    and what it says. */
module ParamGrammar {
  import opened Rfc7230

  predicate IsOws(s: text) { forall k :: 0 <= k < |s| ==> Ows(s[k]) }

  predicate IsToken(s: text) { s != [] && forall k :: 0 <= k < |s| ==> Tchar(s[k]) }

  /** qdtext / quoted-pair */
  datatype QChar = Plain(c: octet) | Escaped(c: octet) {
    predicate Valid() { if Plain? then Qdtext(c) else Escapable(c) }

    function Print(): text { if Plain? then [c] else ['\\', c] }
  }

  predicate AllChars(q: seq<QChar>) { forall k :: 0 <= k < |q| ==> q[k].Valid() }

  /** The characters and the closing quote. */
  function PrintQuoted(q: seq<QChar>): text {
    if q == [] then ['"'] else q[0].Print() + PrintQuoted(q[1..])
  }

  function Contents(q: seq<QChar>): text {
    if q == [] then [] else [q[0].c] + Contents(q[1..])
  }

  /** quoted-string = DQUOTE *( qdtext / quoted-pair ) DQUOTE */
  ghost predicate IsQuotedString(s: text) {
    exists q :: AllChars(q) && s == ['"'] + PrintQuoted(q)
  }

  datatype Written = Absent | Token(t: text) | Quoted(q: seq<QChar>) {
    predicate Valid() { (Token? ==> IsToken(t)) && (Quoted? ==> AllChars(q)) }

    function Print(): text {
      if Absent? then [] else if Token? then t else ['"'] + PrintQuoted(q)
    }

    function Said(): text { if Absent? then [] else if Token? then t else Contents(q) }
  }

  /** OWS ";" OWS token OWS [ "=" OWS ( token / quoted-string ) ] */
  datatype Param = Param(o1: text, o2: text, name: text, o3: text, o4: text, value: Written) {
    predicate Valid() {
      IsOws(o1) && IsOws(o2) && IsToken(name) && IsOws(o3) && IsOws(o4) && value.Valid()
    }

    function PrintTail(): text { if value.Absent? then [] else ['='] + (o4 + value.Print()) }

    function Print(): text { o1 + ([';'] + (o2 + (name + (o3 + PrintTail())))) }

    function Said(): (text, text) { (name, value.Said()) }
  }

  predicate AllParams(ps: seq<Param>) { forall k :: 0 <= k < |ps| ==> ps[k].Valid() }

  function PrintAll(ps: seq<Param>): text {
    if ps == [] then [] else ps[0].Print() + PrintAll(ps[1..])
  }

  function SaidAll(ps: seq<Param>): seq<(text, text)> {
    if ps == [] then [] else [ps[0].Said()] + SaidAll(ps[1..])
  }

  /** A parameter list, and white space at the end. */
  ghost predicate ListOf(s: text, ps: seq<Param>, tail: text) {
    AllParams(ps) && IsOws(tail) && s == PrintAll(ps) + tail
  }

  ghost predicate IsList(s: text) { exists ps, tail :: ListOf(s, ps, tail) }

  /** Something can follow that makes it a parameter list: no character of it is invalid. */
  ghost predicate Viable(s: text) { exists e :: IsList(s + e) }

  /** "=" OWS, and no value. */
  predicate IsEquals(x: text) { x != [] && x[0] == '=' && IsOws(x[1..]) }

  /** The text ends with OWS ";" OWS token OWS [ "=" OWS ], after parameters ps. */
  ghost predicate NameAtEnd(s: text, ps: seq<Param>, p: Param, x: text) {
    && AllParams(ps) && p.Valid() && p.value.Absent? && (x == [] || IsEquals(x))
    && s == PrintAll(ps) + (p.Print() + x)
  }

  ghost predicate EndsInName(s: text) { exists ps, p, x :: NameAtEnd(s, ps, p, x) }

  lemma {:induction false} PrintAllAppend(ps: seq<Param>, p: Param)
    ensures PrintAll(ps + [p]) == PrintAll(ps) + p.Print()
    decreases |ps|
  {
    hide Param.Print;
    if ps == [] {
      assert ps + [p] == [p] && [p][1..] == [];
      assert PrintAll([p]) == p.Print() + PrintAll([]);
      assert p.Print() + [] == p.Print() == [] + p.Print();
    } else {
      PrintAllAppend(ps[1..], p);
      assert (ps + [p])[0] == ps[0] && (ps + [p])[1..] == ps[1..] + [p];
      assert ps[0].Print() + (PrintAll(ps[1..]) + p.Print()) == (ps[0].Print() + PrintAll(ps[1..])) + p.Print();
    }
  }
}
