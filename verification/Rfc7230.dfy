/** Characters and scanning of include/beast/http/detail/rfc7230.hpp, against section 3.2.6 of
    RFC 7230.  The lookup tables are written a row of sixteen characters at a time. */
module Rfc7230 {

  /** char as the tables see it. */
  type octet = c: char | c as int < 256

  type text = seq<octet>

  const CONTROLS := "0000000000000000"
  const ALL := "1111111111111111"

  const TCHAR: seq<string> := [
    CONTROLS, CONTROLS, "0101111100110110", "1111111111000000",
    "0111111111111111", "1111111111100011", ALL, "1111111111101010",
    CONTROLS, CONTROLS, CONTROLS, CONTROLS, CONTROLS, CONTROLS, CONTROLS, CONTROLS]

  const QDCHAR: seq<string> := [
    "0000000001000000", CONTROLS, "1101111111111111", ALL,
    ALL, "1111111111110111", ALL, "1111111111111110",
    ALL, ALL, ALL, ALL, ALL, ALL, ALL, ALL]

  const QPCHAR: seq<string> := [
    "0000000001000000", CONTROLS, ALL, ALL,
    ALL, ALL, ALL, "1111111111111110",
    ALL, ALL, ALL, ALL, ALL, ALL, ALL, ALL]

  function Lookup(rows: seq<string>, c: octet): bool
    requires |rows| == 16 && forall i :: 0 <= i < 16 ==> |rows[i]| == 16
  {
    rows[c as int / 16][c as int % 16] == '1'
  }

  predicate IsTchar(c: octet) { Lookup(TCHAR, c) }

  predicate IsQdchar(c: octet) { Lookup(QDCHAR, c) }

  predicate IsQpchar(c: octet) { Lookup(QPCHAR, c) }

  // ---- The grammar ----

  predicate Alpha(c: octet) { 'a' <= c <= 'z' || 'A' <= c <= 'Z' }

  predicate Digit(c: octet) { '0' <= c <= '9' }

  predicate ObsText(c: octet) { 0x80 <= c as int }

  predicate Vchar(c: octet) { 0x21 <= c as int <= 0x7E }

  predicate Ows(c: octet) { c == ' ' || c == '\t' }

  /** "!" / "#" / "$" / "%" / "&" / "'" / "*" / "+" / "-" / "." / "^" / "_" / "`" / "|" / "~" /
      DIGIT / ALPHA */
  predicate Tchar(c: octet) {
    Alpha(c) || Digit(c) || c in "!#$%&'*+-.^_`|~"
  }

  /** HTAB / SP / %x21 / %x23-5B / %x5D-7E / obs-text */
  predicate Qdtext(c: octet) {
    Ows(c) || c == '!' || 0x23 <= c as int <= 0x5B || 0x5D <= c as int <= 0x7E || ObsText(c)
  }

  /** What may follow a backslash: HTAB / SP / VCHAR / obs-text */
  predicate Escapable(c: octet) { Ows(c) || Vchar(c) || ObsText(c) }

  lemma TcharTable(c: octet)
    ensures IsTchar(c) <==> Tchar(c)
  {
    var r, k := c as int / 16, c as int % 16;
    assert c as int == 16 * r + k;
    if r < 4 { TcharLow(c, r, k); } else if r < 8 { TcharHigh(c, r, k); }
  }

  lemma TcharLow(c: octet, r: nat, k: nat)
    requires r < 4 && k < 16 && c as int == 16 * r + k
    ensures TCHAR[r][k] == '1' <==> Tchar(c)
  {
  }

  lemma TcharHigh(c: octet, r: nat, k: nat)
    requires 4 <= r < 8 && k < 16 && c as int == 16 * r + k
    ensures TCHAR[r][k] == '1' <==> Tchar(c)
  {
  }

  lemma QdcharTable(c: octet)
    ensures IsQdchar(c) <==> Qdtext(c)
  {
    var r, k := c as int / 16, c as int % 16;
    assert c as int == 16 * r + k;
    assert QDCHAR[r][k] == '1' <==> Qdtext(c);
  }

  lemma QpcharTable(c: octet)
    ensures IsQpchar(c) <==> Escapable(c)
  {
    var r, k := c as int / 16, c as int % 16;
    assert c as int == 16 * r + k;
    assert QPCHAR[r][k] == '1' <==> Escapable(c);
  }
}
