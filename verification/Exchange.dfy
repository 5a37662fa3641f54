/** A run of messages on one connection, from end to end. */
module Exchange {
  import opened Bytes
  import opened FrameHeader
  import opened Protocol
  import opened StaticStreambuf
  import opened Receive
  import opened Utf8Checker
  import opened MessageReader
  import opened MessageWriter
  import opened Delivery

  ghost predicate Letters(ms: seq<Letter>) { forall i :: 0 <= i < |ms| ==> ms[i].Valid() }

  // ---- Writing ----

  ghost predicate AllWhole(sents: seq<seq<Frame>>) { forall i :: 0 <= i < |sents| ==> AllValid(sents[i]) }

  /** The octets of the messages, one after the other. */
  ghost function OctetsOf(sents: seq<seq<Frame>>): seq<u8>
    requires AllWhole(sents)
  {
    if sents == [] then [] else WireAll(sents[0]) + OctetsOf(sents[1..])
  }

  lemma OctetsOne(sent: seq<Frame>)
    requires AllValid(sent)
    ensures AllWhole([sent]) && OctetsOf([sent]) == WireAll(sent) && OctetsOf([]) == []
  {
    hide WireAll;
    assert [sent][1..] == [];
    assert WireAll(sent) + [] == WireAll(sent);
  }

  lemma {:induction false} OctetsMore(sents: seq<seq<Frame>>, sent: seq<Frame>)
    requires AllWhole(sents) && AllValid(sent)
    ensures AllWhole(sents + [sent]) && OctetsOf(sents + [sent]) == OctetsOf(sents) + WireAll(sent)
    decreases |sents|
  {
    hide WireAll;
    if sents == [] {
      OctetsOne(sent);
      assert [] + [sent] == [sent] && [] + WireAll(sent) == WireAll(sent);
    } else {
      OctetsMore(sents[1..], sent);
      assert (sents + [sent])[0] == sents[0] && (sents + [sent])[1..] == sents[1..] + [sent];
      Assoc(WireAll(sents[0]), OctetsOf(sents[1..]), WireAll(sent));
    }
  }

  lemma OctetsFrom(sents: seq<seq<Frame>>, i: nat)
    requires AllWhole(sents) && i < |sents|
    ensures AllWhole(sents[i..]) && AllWhole(sents[i + 1..])
    ensures OctetsOf(sents[i..]) == WireAll(sents[i]) + OctetsOf(sents[i + 1..])
  {
    hide WireAll;
    assert sents[i..][1..] == sents[i + 1..];
  }

  ghost predicate AllCarried(sents: seq<seq<Frame>>, ms: seq<Letter>, role: Role) {
    |sents| == |ms| && forall i :: 0 <= i < |ms| ==> Carries(sents[i], ms[i], role)
  }

  lemma CarriedMore(sents: seq<seq<Frame>>, ms: seq<Letter>, i: nat, sent: seq<Frame>, role: Role)
    requires i < |ms| && AllCarried(sents, ms[..i], role) && Carries(sent, ms[i], role)
    ensures AllCarried(sents + [sent], ms[..i + 1], role)
  {
    hide Carries;
  }

  lemma CarriedWhole(sents: seq<seq<Frame>>, ms: seq<Letter>, role: Role)
    requires AllCarried(sents, ms, role)
    ensures AllWhole(sents)
  {
  }

  /** The messages are written one after the other, each with its options. */
  method WriteAll(s: Sender, ms: seq<Letter>) returns (ghost sents: seq<seq<Frame>>)
    requires s.Valid() && !s.cont && Letters(ms)
    modifies s, s.buf
    ensures s.Valid() && !s.cont && AllCarried(sents, ms, s.role)
    ensures AllWhole(sents) && s.wire == old(s.wire) + OctetsOf(sents)
  {
    hide Carries, WireAll, SentBy, OctetsOf, AllCarried, Sender.Valid, Letter.Valid;
    sents := [];
    NothingWritten(s.wire, s.role);
    for i := 0 to |ms|
      invariant s.Valid() && !s.cont && AllWhole(sents) && AllCarried(sents, ms[..i], s.role)
      invariant s.buf == null || s.buf == old(s.buf) || fresh(s.buf)
      invariant s.wire == old(s.wire) + OctetsOf(sents)
    {
      ghost var sent := WriteMessage(s, ms[i]);
      CarriedMore(sents, ms, i, sent, s.role);
      CarriedWhole(sents + [sent], ms[..i + 1], s.role);
      CarriesValid(sent, ms[i], s.role);
      OctetsMore(sents, sent);
      Assoc(old(s.wire), OctetsOf(sents), WireAll(sent));
      sents := sents + [sent];
    }
    assert ms[..|ms|] == ms;
  }

  lemma NothingWritten(wire: seq<u8>, role: Role)
    ensures AllCarried([], [], role) && AllWhole([]) && wire + OctetsOf([]) == wire
  {
  }

  // ---- Reading ----

  /** What the peer's checker holds in front of message i when those before have arrived. */
  function Held(ms: seq<Letter>, i: nat, held: seq<u8>): seq<u8>
    requires i <= |ms|
  {
    if i == 0 then held else if ms[i - 1].op == TEXT then [] else Held(ms, i - 1, held)
  }

  ghost predicate ArriveTo(ms: seq<Letter>, k: nat, held: seq<u8>, max: nat)
    requires Letters(ms) && k <= |ms|
  {
    forall i :: 0 <= i < k ==> Arrives(ms[i], Held(ms, i, held), max)
  }

  /** The first k that were read are the first k that were written. */
  ghost predicate Agree(got: seq<(opcode, seq<u8>)>, ms: seq<Letter>, k: nat)
    requires k <= |ms|
  {
    k <= |got| && forall i :: 0 <= i < k ==> got[i] == ms[i].Said()
  }

  /** The first b that were read are right; if there are more, then the next one is not. */
  ghost predicate RightUpTo(b: nat, got: seq<(opcode, seq<u8>)>, ms: seq<Letter>, held: seq<u8>, max: nat)
    requires Letters(ms)
  {
    && b <= |got| <= |ms| && Agree(got, ms, b) && ArriveTo(ms, b, held, max)
    && (b < |got| ==> got[b] != ms[b].Said() && !Arrives(ms[b], Held(ms, b, held), max))
  }

  lemma RightMore(b: nat, got: seq<(opcode, seq<u8>)>, ms: seq<Letter>, held: seq<u8>, max: nat,
                  next: (opcode, seq<u8>))
    requires Letters(ms) && RightUpTo(b, got, ms, held, max) && |got| < |ms|
    requires b == |got| ==> (next == ms[b].Said() <==> Arrives(ms[b], Held(ms, b, held), max))
    ensures RightUpTo(if b == |got| && next == ms[b].Said() then b + 1 else b, got + [next], ms, held, max)
  {
    hide Arrives, Letter.Said, Held;
  }

  /** When reading ends, it is clear how far the messages arrive. */
  lemma RightToTheEnd(b: nat, got: seq<(opcode, seq<u8>)>, ms: seq<Letter>, held: seq<u8>, max: nat)
    requires Letters(ms) && RightUpTo(b, got, ms, held, max)
    requires b == |got| < |ms| ==> !Arrives(ms[b], Held(ms, b, held), max)
    ensures forall k :: 0 <= k <= |ms| ==> (Agree(got, ms, k) <==> ArriveTo(ms, k, held, max))
  {
    hide Arrives, Letter.Said, Held;
  }

  /** Any messages written on one connection and read by the peer: for every k, the first k come
      out as they were written, each with its type, exactly when each of them arrives by itself.
      (Nothing holds the peer's checker up but what it held before the first text.) */
  method DeliverAll(s: Sender, r: TextMessages.Stream, ms: seq<Letter>) returns (got: seq<(opcode, seq<u8>)>)
    requires s.Valid() && !s.cont && Letters(ms)
    requires r.Valid() && r.base.Valid() && r.base.rdNeed == 0 && !r.base.rdCont && r.base.role == Peer(s.role)
    modifies s, s.buf, r, r.base, r.check
    ensures |got| <= |ms|
    ensures forall k :: 0 <= k <= |ms| ==>
              (Agree(got, ms, k) <==> ArriveTo(ms, k, old(r.check.Text()), r.base.rdMsgMax))
  {
    hide Carries, Arrives, OctetsOf, AllWhole, Held, RightUpTo, Agree, ArriveTo;
    hide Streambuf.Data, Checker.Text, Checker.Valid, Sender.Valid, Letter.Valid;
    ghost var held, max := r.check.Text(), r.base.rdMsgMax;
    var start := |s.wire|;
    ghost var sents := WriteAll(s, ms);
    var db := OnTheWire(s.wire[start..]);
    got := [];
    ghost var b := 0;
    RightAtFirst(ms, held, max);
    assert sents[0..] == sents;
    while |got| < |ms|
      invariant r.Valid() && r.base.Valid() && db.Valid() && fresh(db) && r.base.rdNeed == 0
      invariant r.base.role == Peer(s.role) && r.base.rdMsgMax == max
      invariant b <= |got| <= |ms| && RightUpTo(b, got, ms, held, max)
      invariant b == |got| ==>
        && AllWhole(sents[b..]) && db.Data() == OctetsOf(sents[b..])
        && !r.base.rdCont && r.check.Text() == Held(ms, b, held)
      decreases |ms| - |got|
    {
      ghost var i := |got|;
      OctetsFrom(sents, i);
      HeldNext(ms, i, held);
      var res, payload := ReadNext(r, db, b == i, ms[i], sents[i], OctetsOf(sents[i + 1..]), s.role);
      if !res.Message? {
        break;
      }
      RightMore(b, got, ms, held, max, (res.op, payload));
      got := got + [(res.op, payload)];
      b := if b == i && (res.op, payload) == ms[i].Said() then b + 1 else b;
    }
    RightToTheEnd(b, got, ms, held, max);
  }

  lemma RightAtFirst(ms: seq<Letter>, held: seq<u8>, max: nat)
    requires Letters(ms)
    ensures RightUpTo(0, [], ms, held, max) && Held(ms, 0, held) == held
  {
  }

  lemma HeldNext(ms: seq<Letter>, i: nat, held: seq<u8>)
    requires i < |ms|
    ensures Held(ms, i + 1, held) == if ms[i].op == TEXT then [] else Held(ms, i, held)
  {
  }
}
