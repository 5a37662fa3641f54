/** mask_inplace() over a buffer sequence, in both key widths. */
module MaskBuffers {
  import opened Bytes
  import opened Masking
  import opened MaskInPlace

  ghost predicate ValidBuffers(bs: seq<MutableBuffer>) {
    && (forall i :: 0 <= i < |bs| ==> bs[i].Valid())
    && (forall i, j :: 0 <= i < j < |bs| ==> bs[i].Disjoint(bs[j]))
  }

  ghost function Memories(bs: seq<MutableBuffer>): set<array<u8>> {
    set i | 0 <= i < |bs| :: bs[i].mem
  }

  /** The octets of the buffers, buffer by buffer. */
  ghost function Pieces(bs: seq<MutableBuffer>): (ss: seq<seq<u8>>)
    requires ValidBuffers(bs)
    reads Memories(bs)
    ensures |ss| == |bs|
  {
    seq(|bs|, i requires 0 <= i < |bs| reads Memories(bs) => bs[i].Octets())
  }

  lemma SplicedParts(was: seq<u8>, off: nat, end: nat, key: bv32, o: nat, e: nat)
    requires off <= end <= |was| && o <= e <= |was|
    ensures Spliced(was, off, end, key)[off..end] == Masked(was[off..end], key)
    ensures e <= off || end <= o ==> Spliced(was, off, end, key)[o..e] == was[o..e]
  {
    hide Masked;
    var a, m, c := was[..off], Masked(was[off..end], key), was[end..];
    assert Spliced(was, off, end, key) == a + m + c;
    if e <= off {
      assert (a + m + c)[o..e] == a[o..e] == was[o..e];
    } else if end <= o {
      assert (a + m + c)[o..e] == c[o - end..e - end] == was[o..e];
    }
  }

  lemma FirstPiece(ss: seq<seq<u8>>, key: bv32)
    ensures Concat([]) == Masked(Concat(ss[..0]), key) && Rotated(key, |Concat(ss[..0])|) == key
  {
  }

  /** One more piece masked with the key rotated past the pieces before it. */
  lemma PieceMasked(ss: seq<seq<u8>>, tt: seq<seq<u8>>, key: bv32, i: nat)
    requires i < |ss| && Concat(tt) == Masked(Concat(ss[..i]), key)
    ensures var n := |Concat(ss[..i])|;
      && Concat(tt + [Masked(ss[i], Rotated(key, n))]) == Masked(Concat(ss[..i + 1]), key)
      && Rotated(Rotated(key, n), |ss[i]|) == Rotated(key, |Concat(ss[..i + 1])|)
  {
    hide Masked, Rotated;
    var n := |Concat(ss[..i])|;
    var t := Masked(ss[i], Rotated(key, n));
    assert ss[..i + 1][..i] == ss[..i] && (tt + [t])[..|tt|] == tt;
    MaskedAppend(Concat(ss[..i]), ss[i], key);
    RotatedAppend(key, n, |ss[i]|);
  }

  lemma ReplacePiece(p: seq<seq<u8>>, ss: seq<seq<u8>>, tt: seq<seq<u8>>, i: nat, t: seq<u8>)
    requires i < |ss| && |tt| == i && p == tt + ss[i..]
    ensures p[i] == ss[i] && p[i := t] == tt + [t] + ss[i + 1..]
  {
  }

  lemma PieceLength(bs: seq<MutableBuffer>, i: nat)
    requires ValidBuffers(bs) && i < |bs|
    ensures |Pieces(bs)[i]| == bs[i].len
  {
  }

  lemma DisjointAny(bs: seq<MutableBuffer>, i: nat, j: nat)
    requires ValidBuffers(bs) && i < |bs| && j < |bs| && i != j
    ensures bs[i].Disjoint(bs[j])
  {
    assert i < j ==> bs[i].Disjoint(bs[j]);
    assert j < i ==> bs[j].Disjoint(bs[i]);
  }

  /** One buffer masked in place; the others keep their octets. */
  method MaskOne32(bs: seq<MutableBuffer>, i: nat, key: bv32) returns (key': bv32)
    requires ValidBuffers(bs) && i < |bs|
    modifies bs[i].mem
    ensures Pieces(bs) == old(Pieces(bs))[i := Masked(old(Pieces(bs))[i], key)]
    ensures key' == Rotated(key, bs[i].len)
  {
    hide Masked, Rotated, Spliced;
    ghost var was, off, end := bs[i].mem[..], bs[i].off, bs[i].off + bs[i].len;
    key' := MaskGeneral32(bs[i], key);
    SplicedParts(was, off, end, key, 0, 0);
    forall j | 0 <= j < |bs| && j != i ensures bs[j].Octets() == old(bs[j].Octets()) {
      if bs[j].mem == bs[i].mem {
        DisjointAny(bs, i, j);
        SplicedParts(was, off, end, key, bs[j].off, bs[j].off + bs[j].len);
        assert bs[j].Octets() == bs[i].mem[..][bs[j].off..bs[j].off + bs[j].len];
        assert old(bs[j].Octets()) == was[bs[j].off..bs[j].off + bs[j].len];
      }
    }
  }

  /** One buffer masked in place; the others keep their octets. */
  method MaskOne64(bs: seq<MutableBuffer>, i: nat, wide: bv64, ghost key: bv32) returns (wide': bv64)
    requires ValidBuffers(bs) && i < |bs| && TwoCopies(wide, key)
    modifies bs[i].mem
    ensures Pieces(bs) == old(Pieces(bs))[i := Masked(old(Pieces(bs))[i], key)]
    ensures TwoCopies(wide', Rotated(key, bs[i].len))
  {
    hide Masked, Rotated, Spliced, TwoCopies;
    ghost var was, off, end := bs[i].mem[..], bs[i].off, bs[i].off + bs[i].len;
    wide' := MaskGeneral64(bs[i], wide, key);
    SplicedParts(was, off, end, key, 0, 0);
    forall j | 0 <= j < |bs| && j != i ensures bs[j].Octets() == old(bs[j].Octets()) {
      if bs[j].mem == bs[i].mem {
        DisjointAny(bs, i, j);
        SplicedParts(was, off, end, key, bs[j].off, bs[j].off + bs[j].len);
        assert bs[j].Octets() == bs[i].mem[..][bs[j].off..bs[j].off + bs[j].len];
        assert old(bs[j].Octets()) == was[bs[j].off..bs[j].off + bs[j].len];
      }
    }
  }

  /** mask_inplace(), 32-bit: the payload is masked as one string however it is cut. */
  method Mask32(bs: seq<MutableBuffer>, key: bv32) returns (key': bv32)
    requires ValidBuffers(bs)
    modifies Memories(bs)
    ensures Concat(Pieces(bs)) == Masked(Concat(old(Pieces(bs))), key)
    ensures key' == Rotated(key, |Concat(old(Pieces(bs)))|)
  {
    hide Masked, Rotated, Pieces, Concat;
    ghost var ss, tt := Pieces(bs), [];
    key' := key;
    FirstPiece(ss, key);
    for i := 0 to |bs|
      invariant |tt| == i && Pieces(bs) == tt + ss[i..]
      invariant Concat(tt) == Masked(Concat(ss[..i]), key)
      invariant key' == Rotated(key, |Concat(ss[..i])|)
    {
      PieceMasked(ss, tt, key, i);
      ReplacePiece(Pieces(bs), ss, tt, i, Masked(ss[i], Rotated(key, |Concat(ss[..i])|)));
      PieceLength(bs, i);
      ghost var k := Rotated(key, |Concat(ss[..i])|);
      key' := MaskOne32(bs, i, key');
      tt := tt + [Masked(ss[i], k)];
    }
    assert ss[..|bs|] == ss && Pieces(bs) == tt;
  }

  /** mask_inplace(), 64-bit: from prepare_key() on it gives the octets of the 32-bit form. */
  method Mask64(bs: seq<MutableBuffer>, wide: bv64, ghost key: bv32) returns (wide': bv64)
    requires ValidBuffers(bs) && TwoCopies(wide, key)
    modifies Memories(bs)
    ensures Concat(Pieces(bs)) == Masked(Concat(old(Pieces(bs))), key)
    ensures TwoCopies(wide', Rotated(key, |Concat(old(Pieces(bs)))|))
  {
    hide Masked, Rotated, TwoCopies, Pieces, Concat;
    ghost var ss, tt := Pieces(bs), [];
    wide' := wide;
    FirstPiece(ss, key);
    for i := 0 to |bs|
      invariant |tt| == i && Pieces(bs) == tt + ss[i..]
      invariant Concat(tt) == Masked(Concat(ss[..i]), key)
      invariant TwoCopies(wide', Rotated(key, |Concat(ss[..i])|))
    {
      PieceMasked(ss, tt, key, i);
      ReplacePiece(Pieces(bs), ss, tt, i, Masked(ss[i], Rotated(key, |Concat(ss[..i])|)));
      PieceLength(bs, i);
      ghost var k := Rotated(key, |Concat(ss[..i])|);
      wide' := MaskOne64(bs, i, wide', k);
      tt := tt + [Masked(ss[i], k)];
    }
    assert ss[..|bs|] == ss && Pieces(bs) == tt;
  }
}
