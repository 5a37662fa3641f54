/** The compression function of include/beast/core/detail/sha1.hpp: 80 unrolled rounds whose
    argument order rotates instead of the registers, over a 16-word circular schedule. */
module Sha1Transform {
  import opened Sha1Spec

  /** Ghost record of the run a round belongs to: the registers and block it started from, and
      the number of rounds already done split as 16 * lap + i. */
  datatype Run = Run(h: Regs, m: seq<word>, lap: nat, i: nat) {
    ghost predicate Valid() { |m| == 16 && i < 16 }

    function T(): nat { 16 * lap + i }

    function Next(): Run { if i < 15 then Run(h, m, lap, i + 1) else Run(h, m, lap + 1, 0) }
  }

  /** The schedule word that slot j holds after t rounds, 16 * lap + i == t: one of the last
      sixteen computed, W[t-16 .. t-1], and in the first lap the message block itself. */
  function Held(lap: nat, i: nat, j: nat): nat
    requires i < 16 && j < 16
  {
    if lap == 0 then j else if j < i then 16 * lap + j else 16 * lap + j - 16
  }

  ghost predicate Window(block: seq<word>, g: Run)
    requires |block| == 16 && g.Valid()
  {
    forall j :: 0 <= j < 16 ==> block[j] == W(g.m, Held(g.lap, g.i, j))
  }

  /** The buffer and the registers are those of the plain algorithm after g.T() rounds. */
  ghost predicate At(block: seq<word>, r: Regs, g: Run) {
    |block| == 16 && g.Valid() && Window(block, g) && r == Rounds(g.h, g.m, g.T())
  }

  /** n & 15 for the slot numbers that occur. */
  function Wrap(n: nat): (r: nat)
    requires n < 32
    ensures r == n % 16
  {
    if n < 16 then n else n - 16
  }

  /** rol() */
  function Rol(value: word, bits: bv6): word
    requires 0 < bits < 32
  {
    (value << bits) | (value >> (32 - bits))
  }

  lemma RolIsShift(value: word, bits: bv6)
    requires 0 < bits < 32
    ensures Rol(value, bits) == S(bits, value)
  {
  }

  /** The expression of blk() on the four words it takes. */
  function RolXor(w3: word, w8: word, w14: word, w16: word): word {
    Rol(w3 ^ w8 ^ w14 ^ w16, 1)
  }

  lemma RolXorExtends(w3: word, w8: word, w14: word, w16: word)
    ensures RolXor(w3, w8, w14, w16) == Extend(w3, w8, w14, w16)
  {
    hide Rol, S;
    RolIsShift(w3 ^ w8 ^ w14 ^ w16, 1);
  }

  /** blk(): the next schedule word, from the slots that hold the words 3, 8, 14 and 16 before it. */
  function Blk(block: seq<word>, i: nat): word
    requires |block| == 16 && i < 16
  {
    RolXor(block[Wrap(i + 13)], block[Wrap(i + 8)], block[Wrap(i + 2)], block[i])
  }

  lemma BlkIsSchedule(block: seq<word>, g: Run)
    requires |block| == 16 && g.Valid() && g.lap > 0 && Window(block, g)
    ensures Blk(block, g.i) == W(g.m, g.T())
  {
    hide Extend, RolXor;
    var i, t := g.i, g.T();
    RolXorExtends(block[Wrap(i + 13)], block[Wrap(i + 8)], block[Wrap(i + 2)], block[i]);
    assert block[Wrap(i + 13)] == W(g.m, t - 3);
    assert block[Wrap(i + 8)] == W(g.m, t - 8);
    assert block[Wrap(i + 2)] == W(g.m, t - 14);
    assert block[i] == W(g.m, t - 16);
  }

  /** Slot i is the one the next round overwrites; the other fifteen keep their words. */
  lemma WindowStep(block: seq<word>, g: Run)
    requires |block| == 16 && g.Valid() && g.lap > 0 && Window(block, g)
    ensures Window(block[g.i := W(g.m, g.T())], g.Next())
  {
    hide W;
    var next := block[g.i := W(g.m, g.T())];
    forall j | 0 <= j < 16 ensures next[j] == W(g.m, Held(g.Next().lap, g.Next().i, j)) {
      if j != g.i {
        assert block[j] == W(g.m, Held(g.lap, g.i, j));
      }
    }
  }

  lemma FirstLap(block: seq<word>, g: Run)
    requires |block| == 16 && g.Valid() && g.lap == 0 && Window(block, g)
    ensures block[g.i] == W(g.m, g.T()) && Window(block, g.Next())
  {
    hide W;
    assert block[g.i] == W(g.m, Held(0, g.i, g.i));
    forall j | 0 <= j < 16 ensures block[j] == W(g.m, Held(g.Next().lap, g.Next().i, j)) {
      assert block[j] == W(g.m, Held(0, g.i, j));
    }
  }

  /** The state after one more round of the plain algorithm: from round 16 on the new schedule
      word replaces the one sixteen rounds older. */
  lemma AtStep(block: seq<word>, r: Regs, g: Run)
    requires At(block, r, g)
    ensures var k := W(g.m, g.T());
      && (g.lap == 0 ==> block[g.i] == k && At(block, Round(r, g.T(), k), g.Next()))
      && (g.lap > 0 ==> Blk(block, g.i) == k && At(block[g.i := k], Round(r, g.T(), k), g.Next()))
  {
    hide Round, Blk, W, Window;
    assert Rounds(g.h, g.m, g.T() + 1) == Round(r, g.T(), W(g.m, g.T()));
    if g.lap == 0 {
      FirstLap(block, g);
    } else {
      BlkIsSchedule(block, g);
      WindowStep(block, g);
    }
  }

  /** The common shape of the five round helpers: a register and what a round adds to it. */
  function Accumulate(z: word, f: word, k: word, c: word, s: word): word {
    z + (f + k + c + s)
  }

  /** What a round from 0 to 19 makes of register z. */
  function Mix0(v: word, w: word, x: word, y: word, z: word, k: word): word {
    Accumulate(z, ((w & (x ^ y)) ^ y), k, 0x5a827999, Rol(v, 5))
  }

  /** What a round from 20 to 39 makes of it. */
  function Mix2(v: word, w: word, x: word, y: word, z: word, k: word): word {
    Accumulate(z, (w ^ x ^ y), k, 0x6ed9eba1, Rol(v, 5))
  }

  /** What a round from 40 to 59 makes of it. */
  function Mix3(v: word, w: word, x: word, y: word, z: word, k: word): word {
    Accumulate(z, (((w | x) & y) | (w & x)), k, 0x8f1bbcdc, Rol(v, 5))
  }

  /** What a round from 60 to 79 makes of it. */
  function Mix4(v: word, w: word, x: word, y: word, z: word, k: word): word {
    Accumulate(z, (w ^ x ^ y), k, 0xca62c1d6, Rol(v, 5))
  }

  lemma AddOrder(s: word, f: word, z: word, k: word, c: word)
    ensures Accumulate(z, f, k, c, s) == Temp(s, f, z, k, c)
  {
  }

  lemma Choice(t: nat, w: word, x: word, y: word)
    requires t < 20
    ensures ((w & (x ^ y)) ^ y) == F(t, w, x, y)
  {
  }

  lemma Parity(t: nat, w: word, x: word, y: word)
    requires 20 <= t < 40 || 60 <= t
    ensures w ^ x ^ y == F(t, w, x, y)
  {
  }

  lemma Majority(t: nat, w: word, x: word, y: word)
    requires 40 <= t < 60
    ensures (((w | x) & y) | (w & x)) == F(t, w, x, y)
  {
  }

  lemma Mix0IsRound(v: word, w: word, x: word, y: word, z: word, k: word, t: nat)
    requires t < 20
    ensures Round(Regs(v, w, x, y, z), t, k) == Regs(Mix0(v, w, x, y, z, k), v, Rol(w, 30), x, y)
  {
    hide S, Rol, F, Accumulate, Temp;
    RolIsShift(v, 5);
    RolIsShift(w, 30);
    Choice(t, w, x, y);
    AddOrder(S(5, v), F(t, w, x, y), z, k, K(t));
  }

  lemma Mix2IsRound(v: word, w: word, x: word, y: word, z: word, k: word, t: nat)
    requires 20 <= t < 40
    ensures Round(Regs(v, w, x, y, z), t, k) == Regs(Mix2(v, w, x, y, z, k), v, Rol(w, 30), x, y)
  {
    hide S, Rol, F, Accumulate, Temp;
    RolIsShift(v, 5);
    RolIsShift(w, 30);
    Parity(t, w, x, y);
    AddOrder(S(5, v), F(t, w, x, y), z, k, K(t));
  }

  lemma Mix3IsRound(v: word, w: word, x: word, y: word, z: word, k: word, t: nat)
    requires 40 <= t < 60
    ensures Round(Regs(v, w, x, y, z), t, k) == Regs(Mix3(v, w, x, y, z, k), v, Rol(w, 30), x, y)
  {
    hide S, Rol, F, Accumulate, Temp;
    RolIsShift(v, 5);
    RolIsShift(w, 30);
    Majority(t, w, x, y);
    AddOrder(S(5, v), F(t, w, x, y), z, k, K(t));
  }

  lemma Mix4IsRound(v: word, w: word, x: word, y: word, z: word, k: word, t: nat)
    requires 60 <= t
    ensures Round(Regs(v, w, x, y, z), t, k) == Regs(Mix4(v, w, x, y, z, k), v, Rol(w, 30), x, y)
  {
    hide S, Rol, F, Accumulate, Temp;
    RolIsShift(v, 5);
    RolIsShift(w, 30);
    Parity(t, w, x, y);
    AddOrder(S(5, v), F(t, w, x, y), z, k, K(t));
  }

  /** R0() to R4(): instead of moving the registers along, the caller passes them one place on, so
      after the call they are to be read as z', v, w', x, y. */
  method R0(block: array<word>, v: word, w: word, x: word, y: word, z: word, i: nat, ghost g: Run)
    returns (w': word, z': word, ghost g': Run)
    requires At(block[..], Regs(v, w, x, y, z), g)
    requires g.lap == 0 && i == g.i
    ensures At(block[..], Regs(z', v, w', x, y), g.Next()) && g' == g.Next()
  {
    hide Rol, Mix0, Round, W, Rounds, Window;
    AtStep(block[..], Regs(v, w, x, y, z), g);
    Mix0IsRound(v, w, x, y, z, block[i], g.T());
    z' := Mix0(v, w, x, y, z, block[i]);
    w' := Rol(w, 30);
    g' := g.Next();
  }

  method R1(block: array<word>, v: word, w: word, x: word, y: word, z: word, i: nat, ghost g: Run)
    returns (w': word, z': word, ghost g': Run)
    requires At(block[..], Regs(v, w, x, y, z), g)
    requires i == g.i && 16 <= g.T() < 20
    modifies block
    ensures At(block[..], Regs(z', v, w', x, y), g.Next()) && g' == g.Next()
  {
    hide Rol, Mix0, Round, W, Rounds, Window, Blk;
    AtStep(block[..], Regs(v, w, x, y, z), g);
    Mix0IsRound(v, w, x, y, z, W(g.m, g.T()), g.T());
    block[i] := Blk(block[..], i);
    z' := Mix0(v, w, x, y, z, block[i]);
    w' := Rol(w, 30);
    g' := g.Next();
  }

  method R2(block: array<word>, v: word, w: word, x: word, y: word, z: word, i: nat, ghost g: Run)
    returns (w': word, z': word, ghost g': Run)
    requires At(block[..], Regs(v, w, x, y, z), g)
    requires i == g.i && 20 <= g.T() < 40
    modifies block
    ensures At(block[..], Regs(z', v, w', x, y), g.Next()) && g' == g.Next()
  {
    hide Rol, Mix2, Round, W, Rounds, Window, Blk;
    AtStep(block[..], Regs(v, w, x, y, z), g);
    Mix2IsRound(v, w, x, y, z, W(g.m, g.T()), g.T());
    block[i] := Blk(block[..], i);
    z' := Mix2(v, w, x, y, z, block[i]);
    w' := Rol(w, 30);
    g' := g.Next();
  }

  method R3(block: array<word>, v: word, w: word, x: word, y: word, z: word, i: nat, ghost g: Run)
    returns (w': word, z': word, ghost g': Run)
    requires At(block[..], Regs(v, w, x, y, z), g)
    requires i == g.i && 40 <= g.T() < 60
    modifies block
    ensures At(block[..], Regs(z', v, w', x, y), g.Next()) && g' == g.Next()
  {
    hide Rol, Mix3, Round, W, Rounds, Window, Blk;
    AtStep(block[..], Regs(v, w, x, y, z), g);
    Mix3IsRound(v, w, x, y, z, W(g.m, g.T()), g.T());
    block[i] := Blk(block[..], i);
    z' := Mix3(v, w, x, y, z, block[i]);
    w' := Rol(w, 30);
    g' := g.Next();
  }

  method R4(block: array<word>, v: word, w: word, x: word, y: word, z: word, i: nat, ghost g: Run)
    returns (w': word, z': word, ghost g': Run)
    requires At(block[..], Regs(v, w, x, y, z), g)
    requires i == g.i && 60 <= g.T() < 80
    modifies block
    ensures At(block[..], Regs(z', v, w', x, y), g.Next()) && g' == g.Next()
  {
    hide Rol, Mix4, Round, W, Rounds, Window, Blk;
    AtStep(block[..], Regs(v, w, x, y, z), g);
    Mix4IsRound(v, w, x, y, z, W(g.m, g.T()), g.T());
    block[i] := Blk(block[..], i);
    z' := Mix4(v, w, x, y, z, block[i]);
    w' := Rol(w, 30);
    g' := g.Next();
  }

  lemma Start(g: Run)
    requires |g.m| == 16 && g.T() == 0
    ensures At(g.m, g.h, g)
  {
  }

  method Rounds0To19(block: array<word>, r: Regs, ghost g0: Run) returns (r': Regs, ghost g: Run)
    requires At(block[..], r, g0) && g0.lap == 0 && g0.i == 0
    modifies block
    ensures At(block[..], r', g) && g == Run(g0.h, g0.m, 1, 4)
  {
    hide Round, Rounds, W, Blk, At, Window;
    var a, b, c, d, e := r.a, r.b, r.c, r.d, r.e;
    g := g0;
    b, e, g := R0(block, a, b, c, d, e, 0, g);
    a, d, g := R0(block, e, a, b, c, d, 1, g);
    e, c, g := R0(block, d, e, a, b, c, 2, g);
    d, b, g := R0(block, c, d, e, a, b, 3, g);
    c, a, g := R0(block, b, c, d, e, a, 4, g);
    b, e, g := R0(block, a, b, c, d, e, 5, g);
    a, d, g := R0(block, e, a, b, c, d, 6, g);
    e, c, g := R0(block, d, e, a, b, c, 7, g);
    d, b, g := R0(block, c, d, e, a, b, 8, g);
    c, a, g := R0(block, b, c, d, e, a, 9, g);
    b, e, g := R0(block, a, b, c, d, e, 10, g);
    a, d, g := R0(block, e, a, b, c, d, 11, g);
    e, c, g := R0(block, d, e, a, b, c, 12, g);
    d, b, g := R0(block, c, d, e, a, b, 13, g);
    c, a, g := R0(block, b, c, d, e, a, 14, g);
    b, e, g := R0(block, a, b, c, d, e, 15, g);
    a, d, g := R1(block, e, a, b, c, d, 0, g);
    e, c, g := R1(block, d, e, a, b, c, 1, g);
    d, b, g := R1(block, c, d, e, a, b, 2, g);
    c, a, g := R1(block, b, c, d, e, a, 3, g);
    r' := Regs(a, b, c, d, e);
  }

  method Rounds20To39(block: array<word>, r: Regs, ghost g0: Run) returns (r': Regs, ghost g: Run)
    requires At(block[..], r, g0) && g0.lap == 1 && g0.i == 4
    modifies block
    ensures At(block[..], r', g) && g == Run(g0.h, g0.m, 2, 8)
  {
    hide Round, Rounds, W, Blk, At, Window;
    var a, b, c, d, e := r.a, r.b, r.c, r.d, r.e;
    g := g0;
    b, e, g := R2(block, a, b, c, d, e, 4, g);
    a, d, g := R2(block, e, a, b, c, d, 5, g);
    e, c, g := R2(block, d, e, a, b, c, 6, g);
    d, b, g := R2(block, c, d, e, a, b, 7, g);
    c, a, g := R2(block, b, c, d, e, a, 8, g);
    b, e, g := R2(block, a, b, c, d, e, 9, g);
    a, d, g := R2(block, e, a, b, c, d, 10, g);
    e, c, g := R2(block, d, e, a, b, c, 11, g);
    d, b, g := R2(block, c, d, e, a, b, 12, g);
    c, a, g := R2(block, b, c, d, e, a, 13, g);
    b, e, g := R2(block, a, b, c, d, e, 14, g);
    a, d, g := R2(block, e, a, b, c, d, 15, g);
    e, c, g := R2(block, d, e, a, b, c, 0, g);
    d, b, g := R2(block, c, d, e, a, b, 1, g);
    c, a, g := R2(block, b, c, d, e, a, 2, g);
    b, e, g := R2(block, a, b, c, d, e, 3, g);
    a, d, g := R2(block, e, a, b, c, d, 4, g);
    e, c, g := R2(block, d, e, a, b, c, 5, g);
    d, b, g := R2(block, c, d, e, a, b, 6, g);
    c, a, g := R2(block, b, c, d, e, a, 7, g);
    r' := Regs(a, b, c, d, e);
  }

  method Rounds40To59(block: array<word>, r: Regs, ghost g0: Run) returns (r': Regs, ghost g: Run)
    requires At(block[..], r, g0) && g0.lap == 2 && g0.i == 8
    modifies block
    ensures At(block[..], r', g) && g == Run(g0.h, g0.m, 3, 12)
  {
    hide Round, Rounds, W, Blk, At, Window;
    var a, b, c, d, e := r.a, r.b, r.c, r.d, r.e;
    g := g0;
    b, e, g := R3(block, a, b, c, d, e, 8, g);
    a, d, g := R3(block, e, a, b, c, d, 9, g);
    e, c, g := R3(block, d, e, a, b, c, 10, g);
    d, b, g := R3(block, c, d, e, a, b, 11, g);
    c, a, g := R3(block, b, c, d, e, a, 12, g);
    b, e, g := R3(block, a, b, c, d, e, 13, g);
    a, d, g := R3(block, e, a, b, c, d, 14, g);
    e, c, g := R3(block, d, e, a, b, c, 15, g);
    d, b, g := R3(block, c, d, e, a, b, 0, g);
    c, a, g := R3(block, b, c, d, e, a, 1, g);
    b, e, g := R3(block, a, b, c, d, e, 2, g);
    a, d, g := R3(block, e, a, b, c, d, 3, g);
    e, c, g := R3(block, d, e, a, b, c, 4, g);
    d, b, g := R3(block, c, d, e, a, b, 5, g);
    c, a, g := R3(block, b, c, d, e, a, 6, g);
    b, e, g := R3(block, a, b, c, d, e, 7, g);
    a, d, g := R3(block, e, a, b, c, d, 8, g);
    e, c, g := R3(block, d, e, a, b, c, 9, g);
    d, b, g := R3(block, c, d, e, a, b, 10, g);
    c, a, g := R3(block, b, c, d, e, a, 11, g);
    r' := Regs(a, b, c, d, e);
  }

  method Rounds60To79(block: array<word>, r: Regs, ghost g0: Run) returns (r': Regs, ghost g: Run)
    requires At(block[..], r, g0) && g0.lap == 3 && g0.i == 12
    modifies block
    ensures At(block[..], r', g) && g == Run(g0.h, g0.m, 5, 0)
  {
    hide Round, Rounds, W, Blk, At, Window;
    var a, b, c, d, e := r.a, r.b, r.c, r.d, r.e;
    g := g0;
    b, e, g := R4(block, a, b, c, d, e, 12, g);
    a, d, g := R4(block, e, a, b, c, d, 13, g);
    e, c, g := R4(block, d, e, a, b, c, 14, g);
    d, b, g := R4(block, c, d, e, a, b, 15, g);
    c, a, g := R4(block, b, c, d, e, a, 0, g);
    b, e, g := R4(block, a, b, c, d, e, 1, g);
    a, d, g := R4(block, e, a, b, c, d, 2, g);
    e, c, g := R4(block, d, e, a, b, c, 3, g);
    d, b, g := R4(block, c, d, e, a, b, 4, g);
    c, a, g := R4(block, b, c, d, e, a, 5, g);
    b, e, g := R4(block, a, b, c, d, e, 6, g);
    a, d, g := R4(block, e, a, b, c, d, 7, g);
    e, c, g := R4(block, d, e, a, b, c, 8, g);
    d, b, g := R4(block, c, d, e, a, b, 9, g);
    c, a, g := R4(block, b, c, d, e, a, 10, g);
    b, e, g := R4(block, a, b, c, d, e, 11, g);
    a, d, g := R4(block, e, a, b, c, d, 12, g);
    e, c, g := R4(block, d, e, a, b, c, 13, g);
    d, b, g := R4(block, c, d, e, a, b, 14, g);
    c, a, g := R4(block, b, c, d, e, a, 15, g);
    r' := Regs(a, b, c, d, e);
  }

  /** digest[i] += w */
  method Add(digest: array<word>, i: nat, w: word)
    requires i < digest.Length
    modifies digest
    ensures digest[..] == old(digest[..])[i := Plus(old(digest[i]), w)]
  {
    digest[i] := digest[i] + w;
  }

  /** transform(): the 80 unrolled calls, then the feed-forward into the digest. */
  method Transform(digest: array<word>, block: array<word>)
    requires digest.Length == 5 && block.Length == 16 && digest != block
    modifies digest, block
    ensures digest[..] ==
            Compress(Regs(old(digest[0]), old(digest[1]), old(digest[2]), old(digest[3]), old(digest[4])),
                     old(block[..])).Words()
  {
    hide S, Round, Rounds, W, Window, Plus;
    var r := Regs(digest[0], digest[1], digest[2], digest[3], digest[4]);
    ghost var g := Run(r, block[..], 0, 0);
    Start(g);
    r, g := Rounds0To19(block, r, g);
    r, g := Rounds20To39(block, r, g);
    r, g := Rounds40To59(block, r, g);
    r, g := Rounds60To79(block, r, g);
    Add(digest, 0, r.a);
    Add(digest, 1, r.b);
    Add(digest, 2, r.c);
    Add(digest, 3, r.d);
    Add(digest, 4, r.e);
  }
}
