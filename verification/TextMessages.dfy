/** The check of text messages in read_frame() of include/beast/websocket/impl/stream.ipp: the
    checker runs along with the payload, over buffers, reads and frames. */
module TextMessages {
  import opened Bytes
  import opened FrameHeader
  import opened Protocol
  import opened StreamBase
  import opened Utf8Spec
  import opened Utf8Automaton
  import opened Utf8Checker

  /** What one read_some() brought of the payload, as a buffer sequence, and whether it ends the
      message: rd_need_ == 0 && rd_fh_.fin. */
  datatype Piece = Piece(buffers: seq<seq<u8>>, last: bool) {
    function Octets(): seq<u8> { Concat(buffers) }
  }

  function Octets(ps: seq<Piece>): seq<u8> {
    if ps == [] then [] else Octets(ps[..|ps| - 1]) + ps[|ps| - 1].Octets()
  }

  /** The pieces of one message. */
  ghost predicate WholeMessage(ps: seq<Piece>) {
    ps != [] && forall i :: 0 <= i < |ps| ==> (ps[i].last <==> i == |ps| - 1)
  }

  class Stream {
    const base: Receiver
    /** rd_utf8_check_ */
    const check: Checker
    /** wr_close_: a close frame has been sent. */
    var wrClose: bool

    ghost predicate Valid()
      reads this, check
    {
      check.Valid()
    }

    constructor ()
      ensures Valid() && fresh(base) && fresh(check) && check.Text() == []
      ensures base.Valid() && base.rdMsgMax == 16 * 1024 * 1024 && base.rdNeed == 0
    {
      base := new Receiver();
      check := new Checker();
    }

    /** open(): the checker is left as it is. */
    method Open(r: Role)
      requires Valid()
      modifies base, `wrClose
      ensures Valid() && check.Text() == old(check.Text())
      ensures base.role == r && base.rdNeed == 0 && !base.rdCont && !wrClose
      ensures base.rdMsgMax == old(base.rdMsgMax) && (old(base.Valid()) ==> base.Valid())
      ensures base.rdSize == old(base.rdSize) && base.rdOpcode == old(base.rdOpcode)
    {
      base.Open(r);
      wrClose := false;
    }

    /** A piece of payload: bad is close_code::bad_payload. */
    method CheckPayload(p: Piece) returns (bad: bool)
      requires Valid()
      modifies check
      ensures Valid()
      ensures base.rdOpcode != TEXT ==> !bad && check.Text() == old(check.Text())
      ensures base.rdOpcode == TEXT ==>
        var t := old(check.Text()) + p.Octets();
        && (bad <==> if p.last then !Utf8Octets(t) else !Completable(t))
        && check.Text() == if bad || p.last then [] else t
    {
      hide Utf8Octets, Completable, Concat;
      bad := false;
      if base.rdOpcode == TEXT {
        var good := check.WriteBuffers(p.buffers);
        if !good {
          if Utf8Octets(old(check.Text()) + p.Octets()) {
            CompleteIsCompletable(old(check.Text()) + p.Octets());
          }
          return true;
        }
        if p.last {
          good := check.Finish();
          bad := !good;
        }
      }
    }

    /** The pieces of a text message, up to the first that is bad.  However the message is cut into
        frames, reads and buffers, it is bad exactly when it is not UTF-8, where whatever the
        checker held before counts as part of it; and it is found bad at the first piece after
        which nothing could have saved it. */
    method CheckMessage(ps: seq<Piece>) returns (bad: bool, n: nat)
      requires Valid() && base.rdOpcode == TEXT && WholeMessage(ps)
      modifies check
      ensures Valid() && check.Text() == []
      ensures bad <==> !Utf8Octets(old(check.Text()) + Octets(ps))
      ensures n < |ps| && (!bad ==> n == |ps| - 1)
      ensures n > 0 ==> Completable(old(check.Text()) + Octets(ps[..n]))
      ensures bad && n < |ps| - 1 ==> !Completable(old(check.Text()) + Octets(ps[..n + 1]))
    {
      hide Utf8Octets, Completable, Concat;
      ghost var held := check.Text();
      n := 0;
      assert held + Octets(ps[..0]) == held;
      while true
        invariant Valid() && n < |ps| && check.Text() == held + Octets(ps[..n])
        invariant n > 0 ==> Completable(held + Octets(ps[..n]))
        decreases |ps| - n
      {
        OctetsNext(ps, n);
        Assoc(held, Octets(ps[..n]), ps[n].Octets());
        bad := CheckPayload(ps[n]);
        if bad || ps[n].last {
          PrefixCompletable(held, ps, n + 1);
          return;
        }
        n := n + 1;
      }
    }
  }

  lemma OctetsNext(ps: seq<Piece>, n: nat)
    requires n < |ps|
    ensures Octets(ps[..n + 1]) == Octets(ps[..n]) + ps[n].Octets()
  {
    assert ps[..n + 1][..n] == ps[..n];
  }

  lemma {:induction false} OctetsFront(ps: seq<Piece>, n: nat)
    requires n <= |ps|
    ensures Octets(ps[..n]) <= Octets(ps)
    decreases |ps| - n
  {
    if n == |ps| {
      assert ps[..n] == ps;
    } else {
      OctetsNext(ps, n);
      OctetsFront(ps, n + 1);
    }
  }

  /** A message that is UTF-8 can be completed after each of its pieces. */
  lemma PrefixCompletable(held: seq<u8>, ps: seq<Piece>, n: nat)
    requires n <= |ps|
    ensures Utf8Octets(held + Octets(ps)) ==> Completable(held + Octets(ps[..n]))
    ensures n == |ps| ==> ps[..n] == ps
  {
    hide Utf8Octets, Completable, Octets;
    if Utf8Octets(held + Octets(ps)) {
      OctetsFront(ps, n);
      CompleteIsCompletable(held + Octets(ps));
      var t := Octets(ps)[|Octets(ps[..n])|..];
      assert held + Octets(ps) == (held + Octets(ps[..n])) + t;
      CompletablePrefix(held + Octets(ps[..n]), t);
    }
  }

  /** A connection that ends inside a text message leaves octets in the checker, and open() for
      the next connection does not clear it.  The next text message is judged as it should be,
      whatever it is, exactly when those octets were whole characters. */
  lemma LeftoverHarmless(held: seq<u8>)
    ensures (forall t :: Utf8Octets(held + t) <==> Utf8Octets(t)) <==> Utf8Octets(held)
  {
    if Utf8Octets(held) {
      forall t ensures Utf8Octets(held + t) <==> Utf8Octets(t) {
        OctetsPrefix(held, t);
      }
    } else {
      assert held + [] == held && Utf8Octets([]);
    }
  }

  /** Such octets can be left: the first one of a two-octet character. */
  lemma LeftoverExists()
    ensures Completable([0xC2]) && !Utf8Octets([0xC2])
  {
    var c: seq<u8> := [0xC2, 0x80];
    assert Utf8Char(c);
    assert c[..2] == c && c[2..] == [];
    assert Utf8Octets(c);
    assert [0xC2] + [0x80] == c;
    var s: seq<u8> := [0xC2];
    assert s[..1] == s && !Utf8Char(s);
  }
}
