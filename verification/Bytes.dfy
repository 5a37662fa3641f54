/** Octets, and strings of octets cut into pieces. */
module Bytes {
  type u8 = bv8

  const TWO_64: nat := 0x1_0000_0000_0000_0000

  /** The pieces put together. */
  function Concat<T>(pieces: seq<seq<T>>): seq<T> {
    if pieces == [] then [] else Concat(pieces[..|pieces| - 1]) + pieces[|pieces| - 1]
  }

  lemma {:induction false} ConcatAppend<T>(ss: seq<seq<T>>, tt: seq<seq<T>>)
    ensures Concat(ss + tt) == Concat(ss) + Concat(tt)
    decreases |tt|
  {
    if tt == [] {
      assert ss + tt == ss;
    } else {
      var n := |tt| - 1;
      ConcatAppend(ss, tt[..n]);
      assert (ss + tt)[..|ss + tt| - 1] == ss + tt[..n];
      Assoc(Concat(ss), Concat(tt[..n]), tt[n]);
    }
  }

  lemma ConcatFront<T>(ss: seq<seq<T>>)
    requires ss != []
    ensures Concat(ss) == ss[0] + Concat(ss[1..])
  {
    assert ss == [ss[0]] + ss[1..];
    ConcatAppend([ss[0]], ss[1..]);
    assert Concat([ss[0]]) == Concat([]) + ss[0];
  }

  lemma Assoc<T>(a: seq<T>, b: seq<T>, c: seq<T>)
    ensures (a + b) + c == a + (b + c)
  {
  }

  lemma Rejoin<T>(t: seq<T>, m: nat)
    requires m <= |t|
    ensures t[..m] + t[m..] == t
  {
  }

  lemma SlicePrefix<T>(s: seq<T>, x: nat, y: nat, k: nat)
    requires x <= y <= k <= |s|
    ensures s[..k][x..y] == s[x..y]
  {
  }

  lemma TakeMore<T>(s: seq<T>, i: nat, n: nat)
    requires i + n <= |s|
    ensures s[..i] + s[i..i + n] == s[..i + n]
  {
  }

  lemma TakeOne<T>(s: seq<T>, i: nat)
    requires i < |s|
    ensures s[..i + 1] == s[..i] + [s[i]]
    ensures s == s[..i] + [s[i]] + s[i + 1..]
  {
  }

  lemma ConcatOne<T>(s: seq<T>)
    ensures Concat([s]) == s
  {
    assert Concat([s]) == Concat([s][..0]) + s;
    assert [] + s == s;
  }
}
