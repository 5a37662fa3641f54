/** The streaming interface of include/beast/core/detail/sha1.hpp: init, update and finish. */
module Sha1Context {
  import opened Bytes
  import opened Sha1Spec
  import opened Sha1Transform

  /** Appending a block to whole blocks is one more compression. */
  lemma DigestAppend(s: seq<u8>, b: seq<u8>)
    requires |s| % 64 == 0 && |b| == 64
    ensures |s + b| % 64 == 0
    ensures Digest(s + b) == Compress(Digest(s), BlockWords(b))
  {
    hide Compress, BlockWords;
    assert (s + b)[..|s + b| - 64] == s;
    assert (s + b)[|s + b| - 64..] == b;
  }

  /** The expression make_block() assigns, least significant octet first. */
  function Gather(p3: u8, p2: u8, p1: u8, p0: u8): word {
    (p3 as word) | (p2 as word << 8) | (p1 as word << 16) | (p0 as word << 24)
  }

  lemma GatherIsWord(p: seq<u8>)
    requires |p| == 4
    ensures Gather(p[3], p[2], p[1], p[0]) == Word(p)
  {
  }

  /** make_block(): sixteen big-endian words. */
  method MakeBlock(p: array<u8>, block: array<word>)
    requires p.Length == 64 && block.Length == 16
    modifies block
    ensures block[..] == BlockWords(p[..])
  {
    hide Word, Gather;
    var i := 0;
    while i < 16
      invariant 0 <= i <= 16
      invariant forall j :: 0 <= j < i ==> block[j] == Word(p[..][4 * j..4 * j + 4])
    {
      GatherIsWord(p[..][4 * i..4 * i + 4]);
      block[i] := Gather(p[4 * i + 3], p[4 * i + 2], p[4 * i + 1], p[4 * i]);
      i := i + 1;
    }
  }

  /** Overwriting the last two words of a block overwrites its last eight octets. */
  lemma StoreLength(c: seq<u8>, hi: word, lo: word)
    requires |c| == 64
    ensures BlockWords(c)[14 := hi][15 := lo] == BlockWords(c[..56] + Octets(hi) + Octets(lo))
  {
    hide Word, Octets;
    WordOctets(hi);
    WordOctets(lo);
    var b := c[..56] + Octets(hi) + Octets(lo);
    assert b[56..60] == Octets(hi);
    assert b[60..64] == Octets(lo);
    forall j | 0 <= j < 14 ensures c[4 * j..4 * j + 4] == b[4 * j..4 * j + 4] {
    }
  }

  lemma ZeroBlock()
    ensures forall j :: 0 <= j < 16 ==> BlockWords(Zeros(64))[j] == 0
  {
    assert Word([0, 0, 0, 0]) == 0;
    forall j | 0 <= j < 16 ensures BlockWords(Zeros(64))[j] == 0 {
      assert Zeros(64)[4 * j..4 * j + 4] == [0, 0, 0, 0];
    }
  }

  /** The loop that clears the block before its last two words are set. */
  method ClearBlock(block: array<word>)
    requires block.Length == 16
    modifies block
    ensures block[..14] == BlockWords(Zeros(64))[..14]
  {
    hide BlockWords;
    var i := 0;
    while i < 14
      invariant 0 <= i <= 14
      invariant forall j :: 0 <= j < i ==> block[j] == 0
    {
      block[i] := 0;
      i := i + 1;
    }
    ZeroBlock();
  }

  /** The bit count kept in 64 bits is the true one modulo 2^64. */
  lemma TotalBits(full: nat, n: nat)
    ensures (full % TWO_64 * 64 + n) * 8 % TWO_64 == (64 * full + n) * 8 % TWO_64
  {
    var k := full / TWO_64;
    assert (64 * full + n) * 8 == (full % TWO_64 * 64 + n) * 8 + TWO_64 * (k * 512);
    DropMultiple((full % TWO_64 * 64 + n) * 8, k * 512);
  }

  lemma DropMultiple(x: nat, k: nat)
    ensures (x + TWO_64 * k) % TWO_64 == x % TWO_64
  {
  }

  /** Padding a message that ends with less than 56 octets in its last block. */
  lemma PadOneBlock(msg: seq<u8>, head: seq<u8>, tail: seq<u8>)
    requires msg == head + tail && |head| % 64 == 0 && |tail| < 56
    ensures var l := LengthWords(|msg|);
            Pad(msg) == head + ((tail + [0x80] + Zeros(63 - |tail|))[..56] + Octets(l[0]) + Octets(l[1]))
  {
    hide Octets, LengthWords;
    assert (55 - |msg|) % 64 == 55 - |tail|;
    assert Zeros(63 - |tail|)[..55 - |tail|] == Zeros(55 - |tail|);
  }

  /** Padding a message whose last block has no room for the length. */
  lemma PadTwoBlocks(msg: seq<u8>, head: seq<u8>, tail: seq<u8>)
    requires msg == head + tail && |head| % 64 == 0 && 56 <= |tail| < 64
    ensures var l := LengthWords(|msg|);
            Pad(msg) == head + (tail + [0x80] + Zeros(63 - |tail|)) + (Zeros(64)[..56] + Octets(l[0]) + Octets(l[1]))
  {
    hide Octets, LengthWords;
    assert (55 - |msg|) % 64 == 119 - |tail|;
    assert Zeros(119 - |tail|) == Zeros(63 - |tail|) + Zeros(64)[..56];
  }

  /** The two ways finish() compresses the end of the message both give the padded digest; c is
      the buffer after the "1" bit and the zeros. */
  lemma PaddedDigest(head: seq<u8>, tail: seq<u8>, c: seq<u8>, l: seq<word>)
    requires |head| % 64 == 0 && |tail| < 64
    requires c == tail + [0x80] + Zeros(63 - |tail|)
    requires l == LengthWords(|head + tail|)
    ensures Digest(Pad(head + tail)) ==
            if |tail| < 56 then Compress(Digest(head), BlockWords(c)[14 := l[0]][15 := l[1]])
            else Compress(Compress(Digest(head), BlockWords(c)), BlockWords(Zeros(64))[14 := l[0]][15 := l[1]])
  {
    hide Compress, BlockWords, Digest, Octets, Pad, LengthWords;
    if |tail| < 56 {
      PadOneBlock(head + tail, head, tail);
      StoreLength(c, l[0], l[1]);
      DigestAppend(head, c[..56] + Octets(l[0]) + Octets(l[1]));
    } else {
      PadTwoBlocks(head + tail, head, tail);
      StoreLength(Zeros(64), l[0], l[1]);
      DigestAppend(head, c);
      DigestAppend(head + c, Zeros(64)[..56] + Octets(l[0]) + Octets(l[1]));
    }
  }

  /** transform() on the words of r. */
  method CompressInto(digest: array<word>, block: array<word>, ghost r: Regs)
    requires digest.Length == 5 && block.Length == 16 && digest != block && digest[..] == r.Words()
    modifies digest, block
    ensures digest[..] == Compress(r, old(block[..])).Words()
  {
    hide Compress;
    WordsAre(digest[..], r);
    Transform(digest, block);
  }

  lemma WordsAre(d: seq<word>, r: Regs)
    requires d == r.Words()
    ensures |d| == 5 && Regs(d[0], d[1], d[2], d[3], d[4]) == r
  {
  }

  lemma LastTwo(b: seq<word>, z: seq<word>, hi: word, lo: word)
    requires |b| == |z| == 16 && b[..14] == z[..14]
    ensures b[14 := hi][15 := lo] == z[14 := hi][15 := lo]
  {
    assert forall k :: 0 <= k < 14 ==> b[k] == b[..14][k] && z[k] == z[..14][k];
  }

  /** finish() after make_block(): one or two compressions, n octets being in use. */
  method CompressLast(digest: array<word>, block: array<word>, n: nat, hi: word, lo: word, ghost r: Regs)
    requires digest.Length == 5 && block.Length == 16 && digest != block
    requires digest[..] == r.Words()
    modifies digest, block
    ensures digest[..] == (var b := old(block[..]);
              if n > 56 then Compress(Compress(r, b), BlockWords(Zeros(64))[14 := hi][15 := lo])
              else Compress(r, b[14 := hi][15 := lo])).Words()
  {
    hide Compress, BlockWords, Regs.Words;
    ghost var q := r;
    if n > 56 {
      q := Compress(r, block[..]);
      CompressInto(digest, block, r);
      ClearBlock(block);
      LastTwo(block[..], BlockWords(Zeros(64)), hi, lo);
    }
    ghost var b := block[..];
    block[15] := lo;
    block[14] := hi;
    assert block[..] == b[14 := hi][15 := lo];
    CompressInto(digest, block, q);
  }

  /** A 64-bit counter. */
  function Wrap64(n: nat): nat {
    n % TWO_64
  }

  /** total_bits >> 32 and total_bits & 0xffffffff */
  function HighHalf(totalBits: nat): word
    requires totalBits < TWO_64
  {
    (totalBits / 0x1_0000_0000) as word
  }

  function LowHalf(totalBits: nat): word {
    (totalBits % 0x1_0000_0000) as word
  }

  lemma HalvesAreWords(totalBits: nat)
    requires totalBits < TWO_64
    ensures HighHalf(totalBits) == HighWord(totalBits) && LowHalf(totalBits) == LowWord(totalBits)
  {
  }

  lemma LengthStored(full: nat, n: nat, totalBits: nat)
    requires totalBits == (Wrap64(full) * 64 + n) * 8 % TWO_64
    ensures totalBits < TWO_64
    ensures [HighWord(totalBits), LowWord(totalBits)] == LengthWords(64 * full + n)
  {
    hide HighWord, LowWord;
    TotalBits(full, n);
  }

  lemma Wrap64Succ(n: nat)
    ensures Wrap64(Wrap64(n) + 1) == Wrap64(n + 1)
  {
  }

  class Context {
    var buflen: nat
    var blocks: nat
    const digest: array<word>
    const buf: array<u8>
    /** The whole blocks compressed so far, and how many they are. */
    ghost var head: seq<u8>
    ghost var full: nat

    ghost predicate Counted()
      reads this, digest
    {
      && digest.Length == 5 && buf.Length == 64 && (digest as object) != (buf as object)
      && buflen <= 64
      && |head| == 64 * full
      && blocks == Wrap64(full)
      && digest[..] == Digest(head).Words()
    }

    ghost predicate Valid()
      reads this, digest
    {
      Counted() && buflen < 64
    }

    /** Everything passed to Update so far. */
    ghost function Msg(): seq<u8>
      requires Counted()
      reads this, digest, buf
    {
      head + buf[..buflen]
    }

    /** init() */
    constructor ()
      ensures Valid() && Msg() == [] && fresh(digest) && fresh(buf)
    {
      buflen := 0;
      blocks := 0;
      digest := new word[5];
      buf := new u8[64];
      head := [];
      full := 0;
      new;
      digest[0] := 0x67452301;
      digest[1] := 0xefcdab89;
      digest[2] := 0x98badcfe;
      digest[3] := 0x10325476;
      digest[4] := 0xc3d2e1f0;
    }

    /** The tail of update()'s loop, once buf is full. */
    method FlushBlock()
      requires Counted() && buflen == 64
      modifies this, digest
      ensures Valid() && Msg() == old(Msg())
    {
      hide Compress, BlockWords, Digest, Wrap64, Regs.Words;
      buflen := 0;
      var block := new word[16];
      MakeBlock(buf, block);
      DigestAppend(head, buf[..]);
      CompressInto(digest, block, Digest(head));
      Wrap64Succ(full);
      blocks := Wrap64(blocks + 1);
      head, full := head + buf[..], full + 1;
    }

    /** A piece of the message copied behind what the buffer holds. */
    method Append(chunk: seq<u8>)
      requires Valid() && buflen + |chunk| <= 64
      modifies this`buflen, buf
      ensures Counted() && buflen == old(buflen) + |chunk| && Msg() == old(Msg()) + chunk
    {
      hide Digest, Wrap64;
      forall k | 0 <= k < |chunk| {
        buf[buflen + k] := chunk[k];
      }
      buflen := buflen + |chunk|;
      assert buf[..buflen] == old(buf[..buflen]) + chunk;
    }

    /** update() */
    method Update(message: seq<u8>)
      requires Valid()
      modifies this, digest, buf
      ensures Valid() && Msg() == old(Msg()) + message
    {
      hide Digest, Wrap64, Context.Msg, Regs.Words;
      var p, size := 0, |message|;
      assert old(Msg()) + message[..0] == old(Msg());
      while true
        invariant Valid()
        invariant 0 <= p && 0 <= size && p + size == |message|
        invariant Msg() == old(Msg()) + message[..p]
        decreases size
      {
        var n := if size < 64 - buflen then size else 64 - buflen;
        Append(message[p..p + n]);
        TakeMore(message, p, n);
        Assoc(old(Msg()), message[..p], message[p..p + n]);
        if buflen != 64 {
          assert message[..p + n] == message;
          return;
        }
        p := p + n;
        size := size - n;
        FlushBlock();
      }
    }

    /** finish() up to the first make_block(): the "1" bit and zeros to the end of buf. */
    method Terminate()
      requires Valid()
      modifies this`buflen, buf
      ensures buf[..] == old(buf[..buflen]) + [0x80] + Zeros(63 - old(buflen))
      ensures buflen == 64
    {
      var n := buflen;
      buf[buflen] := 0x80;
      buflen := buflen + 1;
      while buflen < 64
        invariant n < buflen <= 64
        invariant buf[..n] == old(buf[..buflen]) && buf[n] == 0x80
        invariant forall k :: n < k < buflen ==> buf[k] == 0
      {
        buf[buflen] := 0x00;
        buflen := buflen + 1;
      }
      assert buf[..] == buf[..n] + [buf[n]] + buf[n + 1..];
      assert buf[n + 1..] == Zeros(63 - n);
    }

    /** finish() up to the output loop: the digest words are those of the padded message. */
    method Close()
      requires Valid()
      modifies this, digest, buf
      ensures digest.Length == 5 && digest[..] == Digest(Pad(old(Msg()))).Words()
    {
      hide Compress, BlockWords, Digest, Wrap64, Pad, LengthWords, HighWord, LowWord, HighHalf, LowHalf;
      ghost var l := LengthWords(|Msg()|);
      var totalBits := (blocks * 64 + buflen) * 8 % TWO_64;
      LengthStored(full, buflen, totalBits);
      var lo, hi := LowHalf(totalBits), HighHalf(totalBits);
      HalvesAreWords(totalBits);
      var n := buflen + 1;
      Terminate();
      PaddedDigest(head, old(buf[..buflen]), buf[..], l);
      var block := new word[16];
      MakeBlock(buf, block);
      CompressLast(digest, block, n, hi, lo, Digest(head));
    }

    /** finish(): the output loop writes the digest words most significant octet first. */
    method Finish(out: array<u8>)
      requires Valid() && out.Length >= 20 && out != buf && (out as object) != (digest as object)
      modifies this, digest, buf, out
      ensures out[..20] == Sha1(old(Msg())) && out[20..] == old(out[20..])
    {
      hide Digest, Pad, Octets, RegsOctets;
      Close();
      ghost var r := Digest(Pad(old(Msg())));
      var i := 0;
      while i < 5
        invariant 0 <= i <= 5 && out[20..] == old(out[20..])
        invariant digest[..] == r.Words()
        invariant out[..4 * i] == RegsOctets(r)[..4 * i]
      {
        OctetsAt(r, i);
        TakeMore(RegsOctets(r), 4 * i, 4);
        StoreWord(out, 4 * i, digest[i]);
        i := i + 1;
      }
    }
  }

  /** Four octets of the result, stored from the last to the first. */
  method StoreWord(out: array<u8>, p: nat, w: bv32)
    requires p + 4 <= 20 <= out.Length
    modifies out
    ensures out[..p + 4] == old(out[..p]) + Octets(w) && out[20..] == old(out[20..])
  {
    out[p + 3] := (w & 0xFF) as u8;
    out[p + 2] := ((w >> 8) & 0xFF) as u8;
    out[p + 1] := ((w >> 16) & 0xFF) as u8;
    out[p] := ((w >> 24) & 0xFF) as u8;
  }

  lemma OctetsAt(r: Regs, i: nat)
    requires i < 5
    ensures RegsOctets(r)[4 * i..4 * i + 4] == Octets(r.Words()[i])
  {
    hide Octets;
  }

  /** However a message is cut into update() calls, the result is its digest. */
  method HashPieces(pieces: seq<seq<u8>>) returns (digest: array<u8>)
    ensures fresh(digest) && digest[..] == Sha1(Concat(pieces))
  {
    hide Sha1;
    var ctx := new Context();
    for i := 0 to |pieces|
      invariant ctx.Valid() && fresh(ctx) && fresh(ctx.digest) && fresh(ctx.buf)
      invariant ctx.Msg() == Concat(pieces[..i])
    {
      ctx.Update(pieces[i]);
      assert pieces[..i + 1][..i] == pieces[..i];
    }
    assert pieces[..|pieces|] == pieces;
    digest := new u8[20];
    ctx.Finish(digest);
  }
}
