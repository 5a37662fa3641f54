/** The decoding table of include/beast/websocket/detail/utf8_checker.hpp and the language it accepts. */
module Utf8Automaton {
  import opened Bytes
  import opened Utf8Spec

  /** The 400-entry table in rows of sixteen: the class of each octet, then one row per state. */
  const ROWS: seq<seq<nat>> := [
    [0, 0, 0, 0, 0, 0, 0, 0, 0, 0, 0, 0, 0, 0, 0, 0], // 00..0f
    [0, 0, 0, 0, 0, 0, 0, 0, 0, 0, 0, 0, 0, 0, 0, 0], // 10..1f
    [0, 0, 0, 0, 0, 0, 0, 0, 0, 0, 0, 0, 0, 0, 0, 0], // 20..2f
    [0, 0, 0, 0, 0, 0, 0, 0, 0, 0, 0, 0, 0, 0, 0, 0], // 30..3f
    [0, 0, 0, 0, 0, 0, 0, 0, 0, 0, 0, 0, 0, 0, 0, 0], // 40..4f
    [0, 0, 0, 0, 0, 0, 0, 0, 0, 0, 0, 0, 0, 0, 0, 0], // 50..5f
    [0, 0, 0, 0, 0, 0, 0, 0, 0, 0, 0, 0, 0, 0, 0, 0], // 60..6f
    [0, 0, 0, 0, 0, 0, 0, 0, 0, 0, 0, 0, 0, 0, 0, 0], // 70..7f
    [1, 1, 1, 1, 1, 1, 1, 1, 1, 1, 1, 1, 1, 1, 1, 1], // 80..8f
    [9, 9, 9, 9, 9, 9, 9, 9, 9, 9, 9, 9, 9, 9, 9, 9], // 90..9f
    [7, 7, 7, 7, 7, 7, 7, 7, 7, 7, 7, 7, 7, 7, 7, 7], // a0..af
    [7, 7, 7, 7, 7, 7, 7, 7, 7, 7, 7, 7, 7, 7, 7, 7], // b0..bf
    [8, 8, 2, 2, 2, 2, 2, 2, 2, 2, 2, 2, 2, 2, 2, 2], // c0..cf
    [2, 2, 2, 2, 2, 2, 2, 2, 2, 2, 2, 2, 2, 2, 2, 2], // d0..df
    [10, 3, 3, 3, 3, 3, 3, 3, 3, 3, 3, 3, 3, 4, 3, 3], // e0..ef
    [11, 6, 6, 6, 5, 8, 8, 8, 8, 8, 8, 8, 8, 8, 8, 8], // f0..ff
    [0, 1, 2, 3, 5, 8, 7, 1, 1, 1, 4, 6, 1, 1, 1, 1], // s0
    [1, 1, 1, 1, 1, 1, 1, 1, 1, 1, 1, 1, 1, 1, 1, 1], // s1
    [1, 0, 1, 1, 1, 1, 1, 0, 1, 0, 1, 1, 1, 1, 1, 1], // s2
    [1, 2, 1, 1, 1, 1, 1, 2, 1, 2, 1, 1, 1, 1, 1, 1], // s3
    [1, 1, 1, 1, 1, 1, 1, 2, 1, 1, 1, 1, 1, 1, 1, 1], // s4
    [1, 2, 1, 1, 1, 1, 1, 1, 1, 2, 1, 1, 1, 1, 1, 1], // s5
    [1, 1, 1, 1, 1, 1, 1, 3, 1, 3, 1, 1, 1, 1, 1, 1], // s6
    [1, 3, 1, 1, 1, 1, 1, 3, 1, 3, 1, 1, 1, 1, 1, 1], // s7
    [1, 3, 1, 1, 1, 1, 1, 1, 1, 1, 1, 1, 1, 1, 1, 1]  // s8
  ]

  lemma RowsShape()
    ensures |ROWS| == 25 && forall i :: 0 <= i < 25 ==> |ROWS[i]| == 16
  {
  }

  /** lut()[i] */
  function Lut(i: nat): nat
    requires i < 400
  {
    RowsShape();
    ROWS[i / 16][i % 16]
  }

  /** The class of an octet in words: which ranges of the grammar it can stand in. */
  function Class(b: u8): nat {
    if b <= 0x7F then 0
    else if b <= 0x8F then 1
    else if b <= 0x9F then 9
    else if b <= 0xBF then 7
    else if b <= 0xC1 then 8
    else if b <= 0xDF then 2
    else if b <= 0xE0 then 10
    else if b <= 0xEC then 3
    else if b <= 0xED then 4
    else if b <= 0xEF then 3
    else if b <= 0xF0 then 11
    else if b <= 0xF3 then 6
    else if b <= 0xF4 then 5
    else 8
  }

  function ClassOfNat(n: nat): nat {
    if n <= 0x7F then 0
    else if n <= 0x8F then 1
    else if n <= 0x9F then 9
    else if n <= 0xBF then 7
    else if n <= 0xC1 then 8
    else if n <= 0xDF then 2
    else if n <= 0xE0 then 10
    else if n <= 0xEC then 3
    else if n <= 0xED then 4
    else if n <= 0xEF then 3
    else if n <= 0xF0 then 11
    else if n <= 0xF3 then 6
    else if n <= 0xF4 then 5
    else 8
  }

  lemma ClassRowLow(r: nat, c: nat)
    requires r < 12 && c < 16
    ensures |ROWS| == 25 && |ROWS[r]| == 16 && ROWS[r][c] == ClassOfNat(16 * r + c)
  {
    if r < 8 {
    } else if r < 10 {
    } else {
    }
  }

  lemma ClassRowLead(r: nat, c: nat)
    requires 12 <= r < 16 && c < 16
    ensures |ROWS| == 25 && |ROWS[r]| == 16 && ROWS[r][c] == ClassOfNat(16 * r + c)
  {
    if r == 12 {
    } else if r == 13 {
    } else if r == 14 {
    } else {
    }
  }

  lemma ClassTable(b: u8)
    ensures 0 <= b as nat < 256 && Lut(b as nat) == Class(b)
  {
    assert ClassOfNat(b as nat) == Class(b);
    hide Class, ClassOfNat;
    var r, c := b as nat / 16, b as nat % 16;
    if r < 12 {
      ClassRowLow(r, c);
    } else {
      ClassRowLead(r, c);
    }
  }

  /** The transition rows in words. */
  function Delta(q: nat, t: nat): nat
    requires q < 9 && t < 12
  {
    if q == 0 then
      if t == 0 then 0 else if t == 2 then 2 else if t == 3 then 3 else if t == 4 then 5
      else if t == 5 then 8 else if t == 6 then 7 else if t == 10 then 4 else if t == 11 then 6 else 1
    else if q == 2 then if t == 1 || t == 7 || t == 9 then 0 else 1
    else if q == 3 then if t == 1 || t == 7 || t == 9 then 2 else 1
    else if q == 4 then if t == 7 then 2 else 1
    else if q == 5 then if t == 1 || t == 9 then 2 else 1
    else if q == 6 then if t == 7 || t == 9 then 3 else 1
    else if q == 7 then if t == 1 || t == 7 || t == 9 then 3 else 1
    else if q == 8 then if t == 1 then 3 else 1
    else 1
  }

  lemma DeltaRow(q: nat, t: nat)
    requires q < 9 && t < 12
    ensures |ROWS| == 25 && |ROWS[16 + q]| == 16 && ROWS[16 + q][t] == Delta(q, t)
  {
    if q < 3 {
    } else if q < 6 {
    } else {
    }
  }

  lemma DeltaTable(q: nat, t: nat)
    requires q < 9 && t < 12
    ensures Lut(256 + q * 16 + t) == Delta(q, t)
  {
    hide Delta;
    assert (256 + q * 16 + t) / 16 == 16 + q && (256 + q * 16 + t) % 16 == t;
    DeltaRow(q, t);
  }

  // ---- The automaton over texts ----

  lemma InTable(q: nat, b: u8)
    requires q < 9
    ensures 0 <= b as nat < 256 && Lut(b as nat) == Class(b) < 12
    ensures Lut(256 + q * 16 + Class(b)) == Delta(q, Class(b)) < 9
  {
    hide Class, Delta, Lut;
    ClassTable(b);
    ClassRange(b);
    DeltaRange(q, Class(b));
    DeltaTable(q, Class(b));
  }

  lemma ClassRange(b: u8)
    ensures Class(b) < 12
  {
  }

  lemma DeltaRange(q: nat, t: nat)
    requires q < 9 && t < 12
    ensures Delta(q, t) < 9
  {
  }

  /** One table step; state 1 is the error state. */
  function Next(q: nat, b: u8): (r: nat)
    requires q < 9
    ensures r < 9
  {
    hide Class, Delta, Lut;
    InTable(q, b);
    Lut(256 + q * 16 + Lut(b as nat))
  }

  lemma NextDelta(q: nat, b: u8)
    requires q < 9
    ensures Class(b) < 12 && Next(q, b) == Delta(q, Class(b))
  {
    hide Class, Delta, Lut;
    InTable(q, b);
  }

  /** The table walked over a text, stopping for good at the first error. */
  function Run(q: nat, s: seq<u8>): (r: nat)
    requires q < 9
    ensures r < 9
    decreases |s|
  {
    hide Next;
    if s == [] then q else if q == 1 then 1 else Run(Next(q, s[0]), s[1..])
  }

  lemma {:induction false} RunAppend(q: nat, s: seq<u8>, t: seq<u8>)
    requires q < 9
    ensures Run(q, s + t) == Run(Run(q, s), t)
    decreases |s|
  {
    hide Next;
    if s == [] {
      assert s + t == t;
    } else if q == 1 {
    } else {
      RunAppend(Next(q, s[0]), s[1..], t);
      assert (s + t)[1..] == s[1..] + t;
    }
  }

  /** The state after p, p being what has been read of an unfinished character; 1 if no
      character starts with p. */
  function Expect(p: seq<u8>): (q: nat)
    requires |p| <= 3
    ensures q < 9
  {
    if p == [] then 0
    else if |p| == 1 then
      if 0xC2 <= p[0] <= 0xDF then 2
      else if p[0] == 0xE0 then 4
      else if p[0] == 0xED then 5
      else if 0xE1 <= p[0] <= 0xEF then 3
      else if p[0] == 0xF0 then 6
      else if 0xF1 <= p[0] <= 0xF3 then 7
      else if p[0] == 0xF4 then 8
      else 1
    else if |p| == 2 then
      if Utf8_3(p + [0x80]) then 2 else if Utf8_4(p + [0x80, 0x80]) then 3 else 1
    else if Utf8_4(p + [0x80]) then 2 else 1
  }

  /** One step from an unfinished character: it is completed, spoilt, or one octet longer. */
  lemma ExpectStep(p: seq<u8>, b: u8)
    requires |p| <= 3 && Expect(p) != 1
    ensures Next(Expect(p), b) == 0 <==> Utf8Char(p + [b])
    ensures Next(Expect(p), b) > 1 ==> |p| < 3 && Next(Expect(p), b) == Expect(p + [b])
    ensures Next(Expect(p), b) == 1 && |p| < 3 ==> Expect(p + [b]) == 1
  {
    hide Next;
    NextDelta(Expect(p), b);
    if |p| == 0 {
    } else if |p| == 1 {
    } else if |p| == 2 {
    } else {
    }
  }

  /** An unfinished character holds no finished one. */
  lemma NoCharInside(p: seq<u8>, k: nat)
    requires |p| <= 3 && Expect(p) != 1 && 1 <= k <= |p|
    ensures !Utf8Char(p[..k])
  {
  }

  lemma PrefixIsExpected(p: seq<u8>, c: seq<u8>)
    requires Utf8Char(c) && p < c
    ensures |p| <= 3 && Expect(p) != 1 && (p != [] ==> Expect(p) > 1)
  {
    if |p| == 1 {
      assert p == [c[0]];
    } else if |p| == 2 {
      assert p == [c[0], c[1]];
    } else if |p| == 3 {
      assert p == [c[0], c[1], c[2]];
    }
  }

  /** After an error step no continuation of the text can be well formed. */
  lemma Spoilt(p: seq<u8>, b: u8, rest: seq<u8>)
    requires |p| <= 3 && Expect(p) != 1 && Next(Expect(p), b) == 1
    ensures !Utf8Octets(p + [b] + rest)
  {
    hide Expect, Next, Utf8Char;
    var s := p + [b] + rest;
    if Utf8Octets(s) {
      var k :| 1 <= k <= |s| && Utf8Char(s[..k]) && Utf8Octets(s[k..]);
      var c := s[..k];
      ExpectStep(p, b);
      if k <= |p| {
        assert c == p[..k];
        NoCharInside(p, k);
      } else if k > |p| + 1 {
        CharNonEmpty(c);
        assert p + [b] < c;
        PrefixIsExpected(p + [b], c);
      }
    }
  }

  /** With p read of an unfinished character, the automaton ends in state 0 on s exactly when
      p + s is well formed. */
  lemma {:induction false} Accepts(p: seq<u8>, s: seq<u8>)
    requires |p| <= 3 && Expect(p) != 1
    ensures Run(Expect(p), s) == 0 <==> Utf8Octets(p + s)
    decreases |s|
  {
    hide Expect, Next, Utf8Char;
    if s == [] {
      assert p + s == p;
      PendingIsUnfinished(p);
    } else {
      var b, rest := s[0], s[1..];
      assert p + s == p + [b] + rest;
      ExpectStep(p, b);
      var q := Next(Expect(p), b);
      if q == 0 {
        ExpectEmpty();
        Accepts([], rest);
        assert [] + rest == rest;
        FirstChar(p + [b], rest);
      } else if q == 1 {
        Spoilt(p, b, rest);
        ErrorStays(rest);
      } else {
        Accepts(p + [b], rest);
      }
    }
  }

  lemma ExpectEmpty()
    ensures Expect([]) == 0
  {
  }

  lemma ErrorStays(s: seq<u8>)
    ensures Run(1, s) == 1
  {
  }

  lemma PendingIsUnfinished(p: seq<u8>)
    requires |p| <= 3 && Expect(p) != 1
    ensures Expect(p) == 0 <==> p == []
    ensures Utf8Octets(p) <==> p == []
  {
    hide Utf8Char;
    if Utf8Octets(p) && p != [] {
      var k :| 1 <= k <= |p| && Utf8Char(p[..k]) && Utf8Octets(p[k..]);
      NoCharInside(p, k);
    }
  }

  /** The table recognises exactly the texts of the grammar. */
  lemma TableRecognisesUtf8(s: seq<u8>)
    ensures Run(0, s) == 0 <==> Utf8Octets(s)
  {
    Accepts([], s);
    assert [] + s == s;
  }

  /** t can still become a well-formed text. */
  ghost predicate Completable(t: seq<u8>) {
    exists u :: Utf8Octets(t + u)
  }

  lemma RunEmpty()
    ensures Run(0, []) == 0
  {
  }

  lemma RunCons(q: nat, b: u8, u: seq<u8>)
    requires q < 9 && q != 1
    ensures Run(q, [b] + u) == Run(Delta(q, Class(b)), u)
  {
    hide Class, Delta, Next;
    NextDelta(q, b);
    assert ([b] + u)[1..] == u;
  }

  /** Every state but the error state can still be brought back to state 0. */
  lemma Completion(q: nat) returns (u: seq<u8>)
    requires q < 9 && q != 1
    ensures Run(q, u) == 0
  {
    hide Next, Run;
    RunEmpty();
    RunCons(2, 0x80, []);
    RunCons(3, 0x80, [0x80] + []);
    var b := if q == 4 then 0xA0 else if q == 6 then 0x90 else 0x80;
    u := if q == 0 then []
         else if q == 2 then [0x80] + []
         else if q <= 5 then [b] + ([0x80] + [])
         else [b] + ([0x80] + ([0x80] + []));
    if u != [] {
      assert u == [b] + u[1..];
      RunCons(q, b, u[1..]);
    }
  }

  /** The error state is entered at the first octet after which no well-formed text is possible. */
  lemma ErrorIsEarliest(t: seq<u8>)
    ensures Run(0, t) != 1 <==> Completable(t)
  {
    hide Run;
    if Run(0, t) != 1 {
      var u := Completion(Run(0, t));
      RunAppend(0, t, u);
      TableRecognisesUtf8(t + u);
    }
    if Completable(t) {
      var u :| Utf8Octets(t + u);
      TableRecognisesUtf8(t + u);
      RunAppend(0, t, u);
      ErrorStays(u);
    }
  }
}
