/** The streaming validator of include/beast/websocket/detail/utf8_checker.hpp. */
module Utf8Checker {
  import opened Bytes
  import opened Utf8Spec
  import opened Utf8Automaton

  /** The bits a first octet contributes. */
  function LeadBits(b: u8): bv32 {
    if b <= 0x7F then b as bv32 else if b <= 0xDF then Low2(b) else if b <= 0xEF then Low3(b) else Low4(b)
  }

  /** The code point with the six bits of one octet more. */
  function Shift6(b: u8, cp: bv32): bv32 {
    (b as bv32 & 0x3F) | (cp << 6)
  }

  /** What the table lets through of a first octet: its class is the number of bits to drop. */
  function LeadMask(b: u8): bv32 {
    hide Class, Lut;
    InTable(0, b);
    (0xFF as bv32 >> Lut(b as nat)) & (b as bv32)
  }

  /** The mask keeps the payload bits of every octet that can start a character. */
  lemma LeadMaskBits(b: u8)
    requires Next(0, b) != 1
    ensures LeadMask(b) == LeadBits(b)
  {
    hide Next, Lut;
    InTable(0, b);
    NextDelta(0, b);
  }

  /** The value accumulated over the octets of a character read so far. */
  function Partial(p: seq<u8>): bv32
    requires 1 <= |p|
  {
    if |p| == 1 then LeadBits(p[0]) else Shift6(p[|p| - 1], Partial(p[..|p| - 1]))
  }

  lemma Shift6Join2(l: bv32, b: u8)
    ensures Shift6(b, l) == Join2(l, Payload(b))
  {
  }

  lemma Shift6Join3(l: bv32, p: bv32, b: u8)
    ensures Shift6(b, Join2(l, p)) == Join3(l, p, Payload(b))
  {
  }

  lemma Shift6Join4(l: bv32, p: bv32, q: bv32, b: u8)
    ensures Shift6(b, Join3(l, p, q)) == Join4(l, p, q, Payload(b))
  {
  }

  lemma PartialIsDecode(c: seq<u8>)
    requires Utf8Char(c)
    ensures Partial(c) == Decode(c)
  {
    hide Shift6, Join2, Join3, Join4, Payload, Low2, Low3, Low4;
    var l := LeadBits(c[0]);
    if |c| == 1 {
    } else if |c| == 2 {
      assert c[..1] == [c[0]];
      Shift6Join2(l, c[1]);
    } else if |c| == 3 {
      assert c[..2][..1] == [c[0]];
      assert Partial(c[..2]) == Shift6(c[1], l);
      Shift6Join2(l, c[1]);
      Shift6Join3(l, Payload(c[1]), c[2]);
    } else {
      assert c[..3][..2][..1] == [c[0]];
      assert Partial(c[..3][..2]) == Shift6(c[1], l);
      assert Partial(c[..3]) == Shift6(c[2], Shift6(c[1], l));
      Shift6Join2(l, c[1]);
      Shift6Join3(l, Payload(c[1]), c[2]);
      Shift6Join4(l, Payload(c[1]), Payload(c[2]), c[3]);
    }
  }

  lemma PartialAppend(p: seq<u8>, b: u8)
    ensures Partial(p + [b]) == if p == [] then LeadBits(b) else Shift6(b, Partial(p))
  {
    hide LeadBits, Shift6;
    assert (p + [b])[..|p|] == p;
  }

  lemma {:induction false} OctetsAppend(s: seq<u8>, c: seq<u8>)
    requires Utf8Octets(s) && Utf8Char(c)
    ensures Utf8Octets(s + c)
    decreases |s|
  {
    hide Utf8Char;
    if s == [] {
      CharNonEmpty(c);
      assert s + c == c && c[..|c|] == c && c[|c|..] == [];
    } else {
      var k :| 1 <= k <= |s| && Utf8Char(s[..k]) && Utf8Octets(s[k..]);
      OctetsAppend(s[k..], c);
      assert (s + c)[..k] == s[..k] && (s + c)[k..] == s[k..] + c;
    }
  }

  /** What the checker has read: whole characters, the last of them, and the octets of the
      unfinished one. */
  datatype Reading = Reading(before: seq<u8>, last: seq<u8>, pending: seq<u8>) {
    ghost predicate Valid() {
      && Utf8Octets(before) && (last == [] ==> before == []) && (last != [] ==> Utf8Char(last))
      && |pending| <= 3 && Expect(pending) != 1
    }

    function Text(): seq<u8> { before + last + pending }

    /** The value codepoint_ has. */
    ghost function Codepoint(): bv32
      requires Valid()
    {
      if pending != [] then Partial(pending)
      else if last != [] then CharNonEmpty(last); Decode(last)
      else 0
    }

    ghost function Read(b: u8): Reading
      requires Valid()
    {
      if Next(Expect(pending), b) == 0 then Reading(before + last, pending + [b], [])
      else Reading(before, last, pending + [b])
    }
  }

  /** One octet that is not an error. */
  lemma ReadStep(r: Reading, b: u8, cp: bv32)
    requires r.Valid() && Next(Expect(r.pending), b) != 1
    requires r.pending != [] ==> cp == Partial(r.pending)
    ensures r.Read(b).Valid() && r.Read(b).Text() == r.Text() + [b]
    ensures Expect(r.Read(b).pending) == Next(Expect(r.pending), b)
    ensures r.Read(b).Codepoint() == if Expect(r.pending) != 0 then Shift6(b, cp) else LeadMask(b)
  {
    hide Next, Expect, Utf8Char, Shift6, LeadMask, LeadBits, Decode;
    var p := r.pending;
    ExpectStep(p, b);
    ExpectEmpty();
    PendingIsUnfinished(p);
    PartialAppend(p, b);
    if p == [] {
      LeadMaskBits(b);
    }
    if Next(Expect(p), b) == 0 {
      PartialIsDecode(p + [b]);
      if r.last != [] {
        OctetsAppend(r.before, r.last);
      }
    }
    ReadText(r, b);
  }

  lemma ReadText(r: Reading, b: u8)
    requires r.Valid()
    ensures r.Read(b).Text() == r.Text() + [b]
  {
    hide Next, Expect, Utf8Char, Utf8Octets;
    assert (r.before + r.last) + (r.pending + [b]) + [] == r.before + r.last + r.pending + [b];
  }

  /** Whole characters in front do not change whether a text is well formed. */
  lemma {:induction false} OctetsPrefix(s: seq<u8>, t: seq<u8>)
    requires Utf8Octets(s)
    ensures Utf8Octets(s + t) <==> Utf8Octets(t)
    decreases |s|
  {
    hide Utf8Char;
    if s == [] {
      assert s + t == t;
    } else {
      var k :| 1 <= k <= |s| && Utf8Char(s[..k]) && Utf8Octets(s[k..]);
      OctetsPrefix(s[k..], t);
      FirstChar(s[..k], s[k..] + t);
      assert s + t == s[..k] + (s[k..] + t);
    }
  }

  /** The state tells whether the text read is well formed, and it can always be completed. */
  lemma ReadingVerdict(r: Reading)
    requires r.Valid()
    ensures Expect(r.pending) == 0 <==> Utf8Octets(r.Text())
    ensures Completable(r.Text())
  {
    hide Expect, Run, Utf8Char, Decode;
    var whole := r.before + r.last;
    if r.last != [] {
      OctetsAppend(r.before, r.last);
    }
    PendingIsUnfinished(r.pending);
    OctetsPrefix(whole, r.pending);
    var u := Completion(Expect(r.pending));
    Accepts(r.pending, u);
    OctetsPrefix(whole, r.pending + u);
    assert r.Text() + u == whole + (r.pending + u);
  }

  /** An error step rules out every continuation. */
  lemma ReadingError(r: Reading, b: u8, rest: seq<u8>)
    requires r.Valid() && Next(Expect(r.pending), b) == 1
    ensures !Completable(r.Text() + [b] + rest)
  {
    hide Expect, Next, Utf8Char, Decode;
    var whole := r.before + r.last;
    if r.last != [] {
      OctetsAppend(r.before, r.last);
    }
    forall u ensures !Utf8Octets(r.Text() + [b] + rest + u) {
      Spoilt(r.pending, b, rest + u);
      OctetsPrefix(whole, r.pending + [b] + (rest + u));
      assert r.Text() + [b] + rest + u == whole + (r.pending + [b] + (rest + u));
    }
  }

  lemma CompletablePrefix(s: seq<u8>, t: seq<u8>)
    requires Completable(s + t)
    ensures Completable(s)
  {
    var u :| Utf8Octets(s + t + u);
    assert s + (t + u) == s + t + u;
  }

  class Checker {
    var state: nat
    var codepoint: bv32
    /** What has been read since the last reset. */
    ghost var read: Reading

    ghost predicate Valid()
      reads this
    {
      read.Valid() && state == Expect(read.pending) && codepoint == read.Codepoint()
    }

    ghost function Text(): seq<u8>
      reads this
    {
      read.Text()
    }

    constructor ()
      ensures Valid() && Text() == []
    {
      state := 0;
      codepoint := 0;
      read := Reading([], [], []);
    }

    /** reset() */
    method Reset()
      modifies this
      ensures Valid() && Text() == [] && state == 0 && codepoint == 0
    {
      state := 0;
      codepoint := 0;
      read := Reading([], [], []);
    }

    /** write(buffer, size): false at the first octet that no well-formed text can have here. */
    method Write(buffer: seq<u8>) returns (ok: bool)
      requires Valid()
      modifies this
      ensures Valid()
      ensures ok <==> Completable(old(Text()) + buffer)
      ensures Text() == if ok then old(Text()) + buffer else []
    {
      hide Next, Expect, Shift6, LeadMask, Utf8Octets, Utf8Char, Completable, Decode, Partial;
      var p, size := 0, |buffer|;
      while size != 0
        invariant 0 <= p && 0 <= size && p + size == |buffer|
        invariant Valid() && Text() == old(Text()) + buffer[..p]
        decreases size
      {
        var byte := buffer[p];
        TakeOne(buffer, p);
        ghost var was := read;
        ghost var cp := codepoint;
        if state != 0 {
          codepoint := Shift6(byte, codepoint);
        } else {
          codepoint := LeadMask(byte);
        }
        state := Next(state, byte);
        if state == 1 {
          ReadingError(was, byte, buffer[p + 1..]);
          assert old(Text()) + buffer == was.Text() + [byte] + buffer[p + 1..] by {
            Assoc(old(Text()), buffer[..p] + [byte], buffer[p + 1..]);
            Assoc(old(Text()), buffer[..p], [byte]);
          }
          Reset();
          return false;
        }
        ReadStep(was, byte, cp);
        read := was.Read(byte);
        Assoc(old(Text()), buffer[..p], [byte]);
        p := p + 1;
        size := size - 1;
      }
      assert old(Text()) + buffer == Text();
      ReadingVerdict(read);
      return true;
    }

    /** write(bs): the buffers in order, up to the first failure.  The verdict and the text
        depend on the octets only, not on how they are cut into buffers. */
    method WriteBuffers(bs: seq<seq<u8>>) returns (ok: bool)
      requires Valid()
      modifies this
      ensures Valid()
      ensures ok <==> Completable(old(Text()) + Concat(bs))
      ensures Text() == if ok then old(Text()) + Concat(bs) else []
    {
      hide Completable, Expect;
      ReadingVerdict(read);
      var i := 0;
      while i < |bs|
        invariant 0 <= i <= |bs|
        invariant Valid() && Completable(Text())
        invariant Text() + Concat(bs[i..]) == old(Text()) + Concat(bs)
      {
        ghost var was := Text();
        ConcatFront(bs[i..]);
        assert was + Concat(bs[i..]) == was + bs[i] + Concat(bs[i + 1..]);
        var good := Write(bs[i]);
        if !good {
          if Completable(was + bs[i] + Concat(bs[i + 1..])) {
            CompletablePrefix(was + bs[i], Concat(bs[i + 1..]));
          }
          return false;
        }
        i := i + 1;
      }
      assert Text() + Concat(bs[i..]) == Text();
      return true;
    }

    /** finish(): was the text complete? */
    method Finish() returns (success: bool)
      requires Valid()
      modifies this
      ensures success <==> Utf8Octets(old(Text()))
      ensures Valid() && Text() == []
    {
      ReadingVerdict(read);
      success := state == 0;
      Reset();
    }

    /** Whenever state_ is 0 after some input, codepoint_ is the last character's scalar value. */
    lemma CodepointIsLast() returns (c: seq<u8>)
      requires Valid() && state == 0 && Text() != []
      ensures Utf8Char(c) && |c| <= |Text()| && c == Text()[|Text()| - |c|..]
      ensures Scalar(codepoint) && Encode(codepoint) == c
    {
      PendingIsUnfinished(read.pending);
      c := read.last;
      CharIsEncoding(c);
    }
  }

  /** check_utf8() */
  method CheckUtf8(p: seq<u8>) returns (ok: bool)
    ensures ok <==> Utf8Octets(p)
  {
    hide Utf8Octets;
    assert [] + p == p;
    var c := new Checker();
    ok := c.Write(p);
    if !ok {
      if Utf8Octets(p) {
        CompleteIsCompletable(p);
      }
      return;
    }
    ok := c.Finish();
  }

  lemma CompleteIsCompletable(p: seq<u8>)
    requires Utf8Octets(p)
    ensures Completable(p)
  {
    assert p + [] == p;
  }
}
