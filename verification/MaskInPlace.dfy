/** The in-place masking loops of include/beast/websocket/detail/mask.hpp. */
module MaskInPlace {
  import opened Bytes
  import opened Masking

  /** A boost::asio::mutable_buffer: len octets of mem from off on. */
  datatype MutableBuffer = MutableBuffer(mem: array<u8>, off: nat, len: nat) {
    ghost predicate Valid() { off + len <= mem.Length }

    ghost function Octets(): seq<u8>
      requires Valid()
      reads mem
    {
      mem[off..off + len]
    }

    ghost predicate Disjoint(other: MutableBuffer) {
      mem != other.mem || off + len <= other.off || other.off + other.len <= off
    }
  }

  /** s XORed with the first |s| of the four octets k. */
  function XorSeq(s: seq<u8>, k: seq<u8>): (t: seq<u8>)
    requires |s| <= |k|
    ensures |t| == |s|
  {
    seq(|s|, i requires 0 <= i < |s| => Xor(s[i], k[i]))
  }

  /** Four octets in a row masked with four key octets, front to back. */
  method XorUp(mem: array<u8>, p: nat, k0: u8, k1: u8, k2: u8, k3: u8)
    requires p + 4 <= mem.Length
    modifies mem
    ensures mem[..] == old(mem[..p]) + XorSeq(old(mem[p..p + 4]), [k0, k1, k2, k3]) + old(mem[p + 4..])
  {
    hide Xor, XorSeq;
    ghost var a, w, c := mem[..p], mem[p..p + 4], mem[p + 4..];
    XorIs(mem[p], k0);
    mem[p] := mem[p] ^ k0;
    XorIs(mem[p + 1], k1);
    mem[p + 1] := mem[p + 1] ^ k1;
    XorIs(mem[p + 2], k2);
    mem[p + 2] := mem[p + 2] ^ k2;
    XorIs(mem[p + 3], k3);
    mem[p + 3] := mem[p + 3] ^ k3;
    FourDone(mem, p, mem[p], mem[p + 1], mem[p + 2], mem[p + 3]);
    XorFour(w, k0, k1, k2, k3);
    assert mem[..p] == a;
    assert mem[p + 4..] == c;
  }

  lemma XorFour(w: seq<u8>, k0: u8, k1: u8, k2: u8, k3: u8)
    requires |w| == 4
    ensures XorSeq(w, [k0, k1, k2, k3]) == [Xor(w[0], k0), Xor(w[1], k1), Xor(w[2], k2), Xor(w[3], k3)]
  {
    hide Xor;
  }

  /** The memory with four octets in its middle. */
  lemma FourDone(mem: array<u8>, p: nat, x0: u8, x1: u8, x2: u8, x3: u8)
    requires p + 4 <= mem.Length
    requires mem[p] == x0 && mem[p + 1] == x1 && mem[p + 2] == x2 && mem[p + 3] == x3
    ensures mem[..] == mem[..p] + [x0, x1, x2, x3] + mem[p + 4..]
  {
    assert mem[p..p + 4] == [x0, x1, x2, x3];
  }

  /** The switch for the last m octets, entered at its case m: back to front, each case falling
      through to the next. */
  method XorDown(mem: array<u8>, p: nat, m: nat, k: seq<u8>)
    requires m <= |k| && p + m <= mem.Length
    modifies mem
    ensures mem[..] == old(mem[..p]) + XorSeq(old(mem[p..p + m]), k) + old(mem[p + m..])
  {
    hide Xor, XorSeq;
    ghost var was := mem[..];
    if m == 0 {
      XorSeqNone(was, p, k);
    } else {
      XorIs(mem[p + m - 1], k[m - 1]);
      mem[p + m - 1] := mem[p + m - 1] ^ k[m - 1];
      DownParts(was, p, m, Xor(was[p + m - 1], k[m - 1]), k);
      ghost var mid := was[p + m - 1 := Xor(was[p + m - 1], k[m - 1])];
      assert mem[..] == mid;
      assert mem[..p] == mid[..p] && mem[p..p + m - 1] == mid[p..p + m - 1] && mem[p + m - 1..] == mid[p + m - 1..];
      XorDown(mem, p, m - 1, k);
    }
  }

  lemma XorSeqNone(was: seq<u8>, p: nat, k: seq<u8>)
    requires p <= |was|
    ensures was == was[..p] + XorSeq(was[p..p], k) + was[p..]
  {
  }

  /** The last of m octets done, and then those in front of it. */
  lemma DownParts(was: seq<u8>, p: nat, m: nat, x: u8, k: seq<u8>)
    requires 0 < m <= |k| && p + m <= |was| && x == Xor(was[p + m - 1], k[m - 1])
    ensures var q := p + m - 1;
      was[q := x][..p] + XorSeq(was[q := x][p..q], k) + was[q := x][q..]
      == was[..p] + XorSeq(was[p..p + m], k) + was[p + m..]
  {
    hide Xor, XorSeq;
    var q, mid := p + m - 1, was[p + m - 1 := x];
    XorSeqLast(was[p..p + m], k);
    assert mid[..p] == was[..p] && mid[p..q] == was[p..q] == was[p..p + m][..m - 1];
    assert mid[q..] == [x] + was[p + m..];
    var t := XorSeq(was[p..q], k);
    assert was[..p] + t + ([x] + was[p + m..]) == was[..p] + (t + [x]) + was[p + m..];
  }

  lemma XorSeqLast(s: seq<u8>, k: seq<u8>)
    requires 0 < |s| <= |k|
    ensures XorSeq(s, k) == XorSeq(s[..|s| - 1], k) + [Xor(s[|s| - 1], k[|s| - 1])]
  {
    hide Xor;
  }

  function KeyOctets(key: bv32): (k: seq<u8>)
    ensures |k| == 4
  {
    [KeyOctet(key, 0), KeyOctet(key, 1), KeyOctet(key, 2), KeyOctet(key, 3)]
  }

  /** Up to four octets need no rotation. */
  lemma MaskedWord(w: seq<u8>, key: bv32)
    requires |w| <= 4
    ensures XorSeq(w, KeyOctets(key)) == Masked(w, key)
  {
    hide KeyOctet, Xor;
    forall i | 0 <= i < |w| ensures XorSeq(w, KeyOctets(key))[i] == Masked(w, key)[i] {
      assert i % 4 == i;
    }
  }

  lemma WholeWords(key: bv32, words: nat)
    ensures Rotated(key, 4 * words) == key
  {
  }

  /** One round of the 32-bit loop: four octets from p on. */
  method MaskWord32(mem: array<u8>, p: nat, key: bv32)
    requires p + 4 <= mem.Length
    modifies mem
    ensures mem[..] == old(mem[..p]) + Masked(old(mem[p..p + 4]), key) + old(mem[p + 4..])
  {
    hide KeyOctet, XorSeq, Masked;
    MaskedWord(mem[p..p + 4], key);
    XorUp(mem, p, KeyOctet(key, 0), KeyOctet(key, 1), KeyOctet(key, 2), KeyOctet(key, 3));
  }

  /** The switch after the 32-bit loop. */
  method MaskTail32(mem: array<u8>, p: nat, m: nat, key: bv32) returns (key': bv32)
    requires m < 4 && p + m <= mem.Length
    modifies mem
    ensures mem[..] == old(mem[..p]) + Masked(old(mem[p..p + m]), key) + old(mem[p + m..])
    ensures key' == Rotated(key, m)
  {
    hide KeyOctet, XorSeq, Masked, Ror32;
    MaskedTop(mem[p..p + m], key);
    XorDown(mem, p, m, [KeyOctet(key, 0), KeyOctet(key, 1), KeyOctet(key, 2)]);
    key' := if m >= 1 then Ror32(key, Bits(m)) else key;
  }

  /** The memory once its octets off..p have been masked. */
  function Spliced(was: seq<u8>, off: nat, p: nat, key: bv32): (s: seq<u8>)
    requires off <= p <= |was|
    ensures |s| == |was|
  {
    was[..off] + Masked(was[off..p], key) + was[p..]
  }

  lemma CutApart(a: seq<u8>, m: seq<u8>, t: seq<u8>, c: seq<u8>)
    ensures var s, k := a + m + (t + c), |a| + |m|;
      s[..k] == a + m && s[k..k + |t|] == t && s[k + |t|..] == c
  {
  }

  /** Masking n more octets with the key rotated so far extends the masked stretch. */
  lemma SpliceOn(was: seq<u8>, off: nat, p: nat, n: nat, key: bv32)
    requires off <= p && p + n <= |was|
    ensures var cur := Spliced(was, off, p, key);
      cur[..p] + Masked(cur[p..p + n], Rotated(key, p - off)) + cur[p + n..] == Spliced(was, off, p + n, key)
  {
    hide Masked, Rotated, Spliced;
    var a, s, t, c := was[..off], was[off..p], was[p..p + n], was[p + n..];
    assert was == a + s + t + c;
    SplicePieces(a, s, t, c, key);
    CutApart(a, Masked(s, key), t, c);
    MaskedAppend(s, t, key);
    Regroup(a, Masked(s, key), Masked(t, Rotated(key, p - off)), c);
  }

  lemma SplicePieces(a: seq<u8>, s: seq<u8>, t: seq<u8>, c: seq<u8>, key: bv32)
    ensures Spliced(a + s + t + c, |a|, |a| + |s|, key) == a + Masked(s, key) + (t + c)
    ensures Spliced(a + s + t + c, |a|, |a| + |s| + |t|, key) == a + Masked(s + t, key) + c
  {
    hide Masked;
    var w, p := a + s + t + c, |a| + |s|;
    assert w[..|a|] == a && w[|a|..p] == s && w[p..] == t + c;
    assert w[|a|..p + |t|] == s + t && w[p + |t|..] == c;
  }

  lemma Regroup(a: seq<u8>, m: seq<u8>, t: seq<u8>, c: seq<u8>)
    ensures a + m + t + c == a + (m + t) + c
  {
  }

  /** The 32-bit loop. */
  method MaskWords32(mem: array<u8>, off: nat, words: nat, key: bv32)
    requires off + 4 * words <= mem.Length
    modifies mem
    ensures mem[..] == Spliced(old(mem[..]), off, off + 4 * words, key)
  {
    hide Masked, Rotated, Spliced;
    ghost var was := mem[..];
    var p, i := off, words;
    SpliceNone(was, off, key);
    while i != 0
      invariant 0 <= i <= words && p == off + 4 * (words - i)
      invariant mem[..] == Spliced(was, off, p, key)
      decreases i
    {
      SpliceOn(was, off, p, 4, key);
      WholeWords(key, words - i);
      MaskWord32(mem, p, key);
      p := p + 4;
      i := i - 1;
    }
  }

  /** mask_inplace_general(), 32-bit: octet i of the buffer meets key octet i mod 4, and the key
      comes back rotated by the length. */
  method MaskGeneral32(b: MutableBuffer, key: bv32) returns (key': bv32)
    requires b.Valid()
    modifies b.mem
    ensures b.mem[..] == Spliced(old(b.mem[..]), b.off, b.off + b.len, key)
    ensures key' == Rotated(key, b.len)
  {
    hide Masked, Rotated, Spliced;
    var words, m := b.len / 4, b.len % 4;
    MaskWords32(b.mem, b.off, words, key);
    SpliceOn(old(b.mem[..]), b.off, b.off + 4 * words, m, key);
    WholeWords(key, words);
    key' := MaskTail32(b.mem, b.off + 4 * words, m, key);
    TailRotation(key, b.len);
  }

  lemma SpliceNone(was: seq<u8>, off: nat, key: bv32)
    requires off <= |was|
    ensures Spliced(was, off, off, key) == was
  {
  }

  lemma TailRotation(key: bv32, n: nat)
    ensures Rotated(key, n % 4) == Rotated(key, n)
  {
    hide Rotated;
    RotatedMod(0, key, n);
  }

  // ---- 64 bits ----

  lemma CopiesAt(wide: bv64, key: bv32)
    requires TwoCopies(wide, key)
    ensures && Octet64(wide, 0) == KeyOctet(key, 0) && Octet64(wide, 1) == KeyOctet(key, 1)
            && Octet64(wide, 2) == KeyOctet(key, 2) && Octet64(wide, 3) == KeyOctet(key, 3)
            && Octet64(wide, 4) == KeyOctet(key, 0) && Octet64(wide, 5) == KeyOctet(key, 1)
            && Octet64(wide, 6) == KeyOctet(key, 2) && Octet64(wide, 7) == KeyOctet(key, 3)
  {
    hide Octet64, KeyOctet;
    forall j: nat | j < 8 ensures Octet64(wide, j) == KeyOctet(key, j % 4) {
      assert At64(wide, j) == KeyAt(key, j);
    }
  }

  /** Masking two adjacent stretches, the first a whole word or the second empty. */
  lemma MaskedPair(s: seq<u8>, t: seq<u8>, key: bv32)
    requires |s| == 4 || (|s| < 4 && t == [])
    ensures Masked(s, key) + Masked(t, key) == Masked(s + t, key)
  {
    hide Masked, Rotated;
    if |s| == 4 {
      MaskedAppend(s, t, key);
      WholeWords(key, 1);
    } else {
      assert Masked(t, key) == [];
      assert s + t == s;
    }
  }

  lemma EightSlices(mem: array<u8>, p: nat)
    requires p + 8 <= mem.Length
    ensures mem[p + 4..] == mem[p + 4..p + 8] + mem[p + 8..] && mem[p..p + 4] + mem[p + 4..p + 8] == mem[p..p + 8]
  {
  }

  lemma ArraySlices(mem: array<u8>, p: nat)
    requires p + 4 <= mem.Length
    ensures mem[..p] == mem[..][..p] && mem[p..p + 4] == mem[..][p..p + 4] && mem[p + 4..] == mem[..][p + 4..]
  {
  }

  /** One round of the 64-bit loop: eight octets from p on. */
  method MaskWord64(mem: array<u8>, p: nat, wide: bv64, ghost key: bv32)
    requires p + 8 <= mem.Length && TwoCopies(wide, key)
    modifies mem
    ensures mem[..] == old(mem[..p]) + Masked(old(mem[p..p + 8]), key) + old(mem[p + 8..])
  {
    hide KeyOctet, Octet64, XorSeq, TwoCopies, Masked;
    CopiesAt(wide, key);
    ghost var a, s, t, c := mem[..p], mem[p..p + 4], mem[p + 4..p + 8], mem[p + 8..];
    MaskedWord(s, key);
    MaskedWord(t, key);
    MaskedPair(s, t, key);
    EightSlices(mem, p);
    XorUp(mem, p, Octet64(wide, 0), Octet64(wide, 1), Octet64(wide, 2), Octet64(wide, 3));
    ArraySlices(mem, p + 4);
    CutApart(a, Masked(s, key), t, c);
    XorUp(mem, p + 4, Octet64(wide, 4), Octet64(wide, 5), Octet64(wide, 6), Octet64(wide, 7));
    Regroup(a, Masked(s, key), Masked(t, key), c);
  }

  /** The switch after the 64-bit loop, cases 7 to 5 and then 4 to 1.  Octets 4 to 6 are masked
      from the low half again, which is right only because the key is two copies. */
  method XorTail64(mem: array<u8>, p: nat, m: nat, wide: bv64, ghost key: bv32)
    requires m < 8 && p + m <= mem.Length && TwoCopies(wide, key)
    modifies mem
    ensures mem[..] == old(mem[..p]) + Masked(old(mem[p..p + m]), key) + old(mem[p + m..])
  {
    hide KeyOctet, Octet64, XorSeq, TwoCopies, Masked;
    CopiesAt(wide, key);
    var low := if m < 4 then m else 4;
    ghost var a, s, t, c := mem[..p], mem[p..p + low], mem[p + low..p + m], mem[p + m..];
    MaskedTop(t, key);
    MaskedWord(s, key);
    MaskedPair(s, t, key);
    assert s + t == mem[p..p + m];
    assert mem[..p + low] == a + s;
    XorDown(mem, p + low, m - low, [Octet64(wide, 0), Octet64(wide, 1), Octet64(wide, 2)]);
    assert mem[..] == a + s + Masked(t, key) + c;
    SplitAt(a, s, Masked(t, key), c);
    XorDown(mem, p, low, [Octet64(wide, 0), Octet64(wide, 1), Octet64(wide, 2), Octet64(wide, 3)]);
    SplitAt(a, Masked(s, key), Masked(t, key), c);
    Regroup(a, Masked(s, key), Masked(t, key), c);
  }

  /** Fewer than four octets do not meet the fourth key octet. */
  lemma MaskedTop(t: seq<u8>, key: bv32)
    requires |t| < 4
    ensures XorSeq(t, [KeyOctet(key, 0), KeyOctet(key, 1), KeyOctet(key, 2)]) == Masked(t, key)
  {
    hide KeyOctet, Xor;
    MaskedWord(t, key);
  }

  lemma SplitAt(a: seq<u8>, s: seq<u8>, t: seq<u8>, c: seq<u8>)
    ensures var w, k := a + s + t + c, |a| + |s|;
      w[..|a|] == a && w[|a|..k] == s && w[k..] == t + c && a + s + (t + c) == w
  {
  }

  method MaskTail64(mem: array<u8>, p: nat, m: nat, wide: bv64, ghost key: bv32) returns (wide': bv64)
    requires m < 8 && p + m <= mem.Length && TwoCopies(wide, key)
    modifies mem
    ensures mem[..] == old(mem[..p]) + Masked(old(mem[p..p + m]), key) + old(mem[p + m..])
    ensures TwoCopies(wide', Rotated(key, m))
  {
    hide TwoCopies, Masked, Rotated, Ror64;
    XorTail64(mem, p, m, wide, key);
    RotationKeepsCopies(wide, key, m);
    wide' := if m >= 1 then Ror64(wide, Bits(m)) else wide;
  }

  /** The 64-bit loop. */
  method MaskWords64(mem: array<u8>, off: nat, words: nat, wide: bv64, ghost key: bv32)
    requires off + 8 * words <= mem.Length && TwoCopies(wide, key)
    modifies mem
    ensures mem[..] == Spliced(old(mem[..]), off, off + 8 * words, key)
  {
    hide Masked, Rotated, Spliced, TwoCopies;
    ghost var was := mem[..];
    var p, i := off, words;
    SpliceNone(was, off, key);
    while i != 0
      invariant 0 <= i <= words && p == off + 8 * (words - i)
      invariant mem[..] == Spliced(was, off, p, key)
      decreases i
    {
      SpliceOn(was, off, p, 8, key);
      WholeWords(key, 2 * (words - i));
      MaskWord64(mem, p, wide, key);
      p := p + 8;
      i := i - 1;
    }
  }

  /** mask_inplace_general(), 64-bit: the same octets as the 32-bit form from a key of two copies,
      and the key that comes back is two copies of the one the 32-bit form returns. */
  method MaskGeneral64(b: MutableBuffer, wide: bv64, ghost key: bv32) returns (wide': bv64)
    requires b.Valid() && TwoCopies(wide, key)
    modifies b.mem
    ensures b.mem[..] == Spliced(old(b.mem[..]), b.off, b.off + b.len, key)
    ensures TwoCopies(wide', Rotated(key, b.len))
  {
    hide Masked, Rotated, Spliced, TwoCopies;
    var words, m := b.len / 8, b.len % 8;
    MaskWords64(b.mem, b.off, words, wide, key);
    SpliceOn(old(b.mem[..]), b.off, b.off + 8 * words, m, key);
    WholeWords(key, 2 * words);
    wide' := MaskTail64(b.mem, b.off + 8 * words, m, wide, key);
    TailRotation64(key, b.len);
  }

  lemma TailRotation64(key: bv32, n: nat)
    ensures Rotated(key, n % 8) == Rotated(key, n)
  {
    hide Ror32;
    var q, r := n / 8, n % 8;
    assert n == 4 * (2 * q + r / 4) + r % 4;
  }
}
