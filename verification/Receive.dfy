/** Reading a stream of frames: do_read_fh() and the payload part of read_frame() of
    include/beast/websocket/impl/stream.ipp around read_fh1() and read_fh2(). */
module Receive {
  import opened Bytes
  import opened Masking
  import opened MaskInPlace
  import opened Endian
  import opened FrameHeader
  import opened Protocol
  import opened StaticStreambuf
  import opened StreamBase

  datatype Outcome = Done | Failed(code: nat) | Eof

  /** The length of the header that starts with the octets of d. */
  function HeaderLength(d: seq<u8>): nat
    requires |d| >= 2
  {
    2 + Extra(LengthField(d[1])) + KeySize(Bit(d[1], 0x80))
  }

  /** What read_fh1() and read_fh2() make of a complete header with a minimal length. */
  lemma WholeDescribes(d: seq<u8>, key: bv32)
    requires |d| >= 2 && HeaderLength(d) <= |d|
    ensures var f := Fixed(d[0], d[1], key);
      Minimal(f.len, FullLength(f.len, d[2..])) ==> Describes(d[..HeaderLength(d)], Whole(f, d[2..]))
  {
    hide Bit, OpcodeIn, LengthField, LittleUint32, LittleOctets, BigEndian;
    FieldRanges(d[0]);
    var f, n := Fixed(d[0], d[1], key), HeaderLength(d);
    var ext := Extra(f.len);
    var s := d[..n];
    assert s[2..2 + ext] == d[2..][..ext];
    if f.mask {
      assert s[2 + ext..] == d[2..][ext..ext + 4];
      LittleOctetsOf(s[2 + ext..]);
    }
  }

  lemma KeySlice(d: seq<u8>, k: nat, ext: nat)
    requires k == 2 + ext + 4 <= |d|
    ensures d[..k][2 + ext..] == d[2..][ext..ext + 4]
  {
  }

  /** The other way round: a header described by the front of d is the one that is read, and
      whether it is legal shows in its first two octets. */
  lemma DescribedIsRead(d: seq<u8>, k: nat, h: Header, key: bv32)
    requires k <= |d| && Describes(d[..k], h)
    ensures |d| >= 2 && k == HeaderLength(d)
    ensures var f := Fixed(d[0], d[1], key);
      && Minimal(f.len, FullLength(f.len, d[2..])) && h == Whole(f, d[2..])
      && (forall role :: WellFormed(h, role) <==> WellFormed(f, role))
      && (forall cont :: Expected(h, cont) <==> Expected(f, cont))
  {
    hide Bit, OpcodeIn, LengthField, LittleUint32, LittleOctets, BigEndian;
    var s := d[..k];
    assert s[0] == d[0] && s[1] == d[1];
    FieldRanges(d[0]);
    FieldRanges(d[1]);
    var f := Fixed(d[0], d[1], key);
    var ext := Extra(f.len);
    assert s[2..2 + ext] == d[2..][..ext];
    if h.mask {
      KeySlice(d, k, ext);
      LittleRoundTrip(h.key);
    }
  }

  /** No header that the receiver admits starts d, nor any continuation of it. */
  ghost predicate Hopeless(d: seq<u8>, st: State, cfg: Config) {
    forall e, k: nat, h :: k <= |d + e| && Describes((d + e)[..k], h) ==> !Admissible(h, st, cfg)
  }

  /** There is a header that would have been admissible if its message were smaller. */
  ghost predicate TooBig(d: seq<u8>, st: State, cfg: Config) {
    exists k: nat, h :: k <= |d| && Describes(d[..k], h) && TooBigHeader(h, st, cfg)
  }

  ghost predicate TooBigHeader(h: Header, st: State, cfg: Config) {
    WellFormed(h, cfg.role) && Expected(h, st.cont) && !Admissible(h, st, cfg)
  }

  lemma HopelessFixed(d: seq<u8>, key: bv32, st: State, cfg: Config)
    requires |d| >= 2
    requires var f := Fixed(d[0], d[1], key); !(WellFormed(f, cfg.role) && Expected(f, st.cont))
    ensures Hopeless(d, st, cfg) && !TooBig(d, st, cfg)
  {
    hide WellFormed, Expected, Describes, Fixed, Whole, HeaderLength;
    forall k: nat, h | k <= |d| && Describes(d[..k], h) ensures !(WellFormed(h, cfg.role) && Expected(h, st.cont)) {
      DescribedIsRead(d, k, h, key);
    }
    forall e, k: nat, h | k <= |d + e| && Describes((d + e)[..k], h) ensures !Admissible(h, st, cfg) {
      DescribedIsRead(d + e, k, h, key);
    }
  }

  lemma HopelessWhole(d: seq<u8>, key: bv32, st: State, cfg: Config)
    requires |d| >= 2 && HeaderLength(d) <= |d|
    requires var f := Fixed(d[0], d[1], key);
      Minimal(f.len, FullLength(f.len, d[2..])) ==> !Admissible(Whole(f, d[2..]), st, cfg)
    ensures Hopeless(d, st, cfg)
  {
    hide Admissible, Describes, Fixed, Whole, FullLength, HeaderLength;
    forall e, k: nat, h | k <= |d + e| && Describes((d + e)[..k], h) ensures !Admissible(h, st, cfg) {
      DescribedIsRead(d + e, k, h, key);
      SameWhole(d, e, key);
    }
  }

  lemma SliceInFront(d: seq<u8>, e: seq<u8>, x: nat, y: nat)
    requires x <= y && 2 + y <= |d|
    ensures (d + e)[2..][x..y] == d[2..][x..y]
  {
    assert (d + e)[2..] == d[2..] + e;
  }

  /** What follows a header has no part in it. */
  lemma SameWhole(d: seq<u8>, e: seq<u8>, key: bv32)
    requires |d| >= 2 && HeaderLength(d) <= |d|
    ensures (d + e)[0] == d[0] && (d + e)[1] == d[1]
    ensures var f := Fixed(d[0], d[1], key);
      FullLength(f.len, (d + e)[2..]) == FullLength(f.len, d[2..]) && Whole(f, (d + e)[2..]) == Whole(f, d[2..])
  {
    hide LittleUint32, BigEndian, Bit, LengthField, OpcodeIn;
    var f := Fixed(d[0], d[1], key);
    var ext := Extra(f.len);
    SliceInFront(d, e, 0, ext);
    if f.mask {
      SliceInFront(d, e, ext, ext + 4);
    }
  }

  /** The two fixed octets are there and wrong, or the whole header is there and not admissible. */
  ghost predicate Rejects(d: seq<u8>, st: State, cfg: Config) {
    |d| >= 2 &&
    var f := Fixed(d[0], d[1], 0);
    || !(WellFormed(f, cfg.role) && Expected(f, st.cont))
    || (HeaderLength(d) <= |d| && Hopeless(d, st, cfg))
  }

  /** A rejected header: nothing could have helped, and the code tells why. */
  ghost predicate FailsWith(code: nat, d: seq<u8>, st: State, cfg: Config) {
    && Rejects(d, st, cfg) && Hopeless(d, st, cfg)
    && code == if TooBig(d, st, cfg) then TOO_BIG else PROTOCOL_ERROR
  }

  lemma FixedKey(b0: u8, b1: u8, key: bv32, role: Role, cont: bool)
    ensures WellFormed(Fixed(b0, b1, key), role) <==> WellFormed(Fixed(b0, b1, 0), role)
    ensures Expected(Fixed(b0, b1, key), cont) <==> Expected(Fixed(b0, b1, 0), cont)
  {
    hide Bit, LengthField, OpcodeIn;
  }

  lemma AdmissibleNotRejected(d: seq<u8>, h: Header, st: State, cfg: Config)
    requires |d| >= 2 && HeaderLength(d) <= |d| && Describes(d[..HeaderLength(d)], h) && Admissible(h, st, cfg)
    ensures !Rejects(d, st, cfg)
  {
    hide Fixed, WellFormed, Expected, Fits, Describes, HeaderLength, Whole, Minimal, FullLength;
    DescribedIsRead(d, HeaderLength(d), h, 0);
    assert d + [] == d;
  }

  lemma TooBigWhole(d: seq<u8>, key: bv32, st: State, cfg: Config)
    requires |d| >= 2 && HeaderLength(d) <= |d|
    requires var f := Fixed(d[0], d[1], key); WellFormed(f, cfg.role) && Expected(f, st.cont)
    ensures var f := Fixed(d[0], d[1], key);
      TooBig(d, st, cfg) <==> Minimal(f.len, FullLength(f.len, d[2..])) && !Admissible(Whole(f, d[2..]), st, cfg)
  {
    hide WellFormed, Expected, Admissible, Describes, FullLength, Minimal, Bit, LengthField, OpcodeIn, LittleUint32;
    var f := Fixed(d[0], d[1], key);
    if Minimal(f.len, FullLength(f.len, d[2..])) {
      WholeDescribes(d, key);
      var h := Whole(f, d[2..]);
      DescribedIsRead(d, HeaderLength(d), h, key);
      assert WellFormed(h, cfg.role) && Expected(h, st.cont);
      if !Admissible(h, st, cfg) {
        assert TooBigHeader(h, st, cfg) && Describes(d[..HeaderLength(d)], h);
      }
    }
    forall k: nat, h | k <= |d| && Describes(d[..k], h)
      ensures Minimal(f.len, FullLength(f.len, d[2..])) && h == Whole(f, d[2..])
    {
      DescribedIsRead(d, k, h, key);
    }
  }

  /** An admissible header in front is not too big. */
  lemma NotTooBig(d: seq<u8>, g: Frame, st: State, cfg: Config)
    requires g.h.Valid() && Wire(g) <= d && Admissible(g.h, st, cfg)
    ensures !TooBig(d, st, cfg)
  {
    hide Wire, Print, Describes, Admissible, WellFormed, Expected;
    WireStarts(d, g);
    forall k: nat, h | k <= |d| && Describes(d[..k], h) ensures h == g.h {
      DescribesPrefix(d, k, |Print(g.h)|, h, g.h);
    }
  }

  /** After the two fixed octets: the header is rejected, or this is how long it is. */
  lemma HeaderFixed(d: seq<u8>, key: bv32, st: State, cfg: Config)
    requires |d| >= 2
    ensures var f := Fixed(d[0], d[1], key);
      && f.len < 128 && HeaderLength(d) == 2 + Extra(f.len) + KeySize(f.mask)
      && (if WellFormed(f, cfg.role) && Expected(f, st.cont) then |d| < HeaderLength(d) ==> !Rejects(d, st, cfg)
          else FailsWith(PROTOCOL_ERROR, d, st, cfg))
  {
    hide WellFormed, Expected, Hopeless, TooBig, Bit, LengthField, OpcodeIn;
    FieldRanges(d[1]);
    FixedKey(d[0], d[1], key, cfg.role, st.cont);
    var f := Fixed(d[0], d[1], key);
    if !(WellFormed(f, cfg.role) && Expected(f, st.cont)) {
      HopelessFixed(d, key, st, cfg);
    }
  }

  /** The whole header is there: what it describes, and whether it is admissible. */
  lemma HeaderWhole(d: seq<u8>, key: bv32, st: State, cfg: Config)
    requires |d| >= 2 && HeaderLength(d) <= |d|
    requires var f := Fixed(d[0], d[1], key); WellFormed(f, cfg.role) && Expected(f, st.cont)
    ensures var f, n := Fixed(d[0], d[1], key), HeaderLength(d);
      if Minimal(f.len, FullLength(f.len, d[2..])) then
        var h := Whole(f, d[2..]);
        && Describes(d[..n], h) && d[2..][n - 2..] == d[n..]
        && (if IsControl(h.op) || Fits(SizeAfter(h, st), cfg.max) then Admissible(h, st, cfg)
            else FailsWith(TOO_BIG, d, st, cfg))
      else FailsWith(PROTOCOL_ERROR, d, st, cfg)
  {
    hide WellFormed, Expected, Hopeless, TooBig, Describes, FullLength, Minimal, Fixed, Whole, HeaderLength, Fits;
    var f, n := Fixed(d[0], d[1], key), HeaderLength(d);
    HeaderFixed(d, key, st, cfg);
    TooBigWhole(d, key, st, cfg);
    FixedKey(d[0], d[1], key, cfg.role, st.cont);
    if Minimal(f.len, FullLength(f.len, d[2..])) {
      WholeDescribes(d, key);
      DescribedIsRead(d, n, Whole(f, d[2..]), key);
      assert d[2..][n - 2..] == d[n..];
    }
    if !(Minimal(f.len, FullLength(f.len, d[2..])) && Admissible(Whole(f, d[2..]), st, cfg)) {
      HopelessWhole(d, key, st, cfg);
    }
  }

  /** do_read_fh(): a header is accepted exactly when the octets describe one that is admissible;
      it is rejected only when no continuation could help; otherwise more octets are needed. */
  method ReadHeader(r: Receiver, db: Streambuf) returns (o: Outcome)
    requires r.Valid() && db.Valid()
    modifies r`rdFh, r`rdKey, r`rdSize, r`rdOpcode, r`rdNeed, r`rdCont, db`inp
    ensures r.Valid() && db.Valid()
    ensures o.Done? ==>
      && |old(db.Data())| >= 2 && HeaderLength(old(db.Data())) <= |old(db.Data())|
      && Describes(old(db.Data())[..HeaderLength(old(db.Data()))], r.rdFh)
      && db.Data() == old(db.Data())[HeaderLength(old(db.Data()))..]
      && Admissible(r.rdFh, old(r.St()), r.Cfg()) && r.St() == Next(r.rdFh, old(r.St()))
      && (!IsControl(r.rdFh.op) ==> r.rdNeed == r.rdFh.len)
      && (IsControl(r.rdFh.op) ==> r.rdNeed == old(r.rdNeed))
      && (r.rdFh.mask ==> TwoCopies(r.rdKey, r.rdFh.key))
    ensures o.Failed? ==> FailsWith(o.code, old(db.Data()), old(r.St()), r.Cfg())
    ensures o.Eof? ==> |old(db.Data())| < 2 || |old(db.Data())| < HeaderLength(old(db.Data()))
    ensures o.Eof? ==> !Rejects(old(db.Data()), old(r.St()), r.Cfg())
  {
    hide Describes, WellFormed, Expected, Fits, Next, TwoCopies, Admissible, FailsWith, Minimal, FullLength;
    hide Fixed, Whole, HeaderLength, Streambuf.Data;
    ghost var d, key, st, cfg := db.Data(), r.rdFh.key, r.St(), r.Cfg();
    if db.Size() < 2 {
      return Eof;
    }
    HeaderFixed(d, key, st, cfg);
    var need, code := r.ReadFh1(db);
    if code != NONE {
      return Failed(code);
    }
    if db.Size() < need {
      return Eof;
    }
    HeaderWhole(d, key, st, cfg);
    code := r.ReadFh2(db);
    if code != NONE {
      return Failed(code);
    }
    return Done;
  }

  // ---- Frames ----

  datatype Frame = Frame(h: Header, payload: seq<u8>) {
    ghost predicate Valid() { h.Valid() && h.len == |payload| }
  }

  /** A payload as header h has it: masked with the key if the header says so. */
  function Covered(s: seq<u8>, h: Header): (t: seq<u8>)
    ensures |t| == |s|
  {
    if h.mask then Masked(s, h.key) else s
  }

  lemma CoveredTwice(s: seq<u8>, h: Header)
    ensures Covered(Covered(s, h), h) == s
  {
    MaskTwice(s, h.key);
  }

  /** What a piece of payload becomes when got octets of it have gone before. */
  function CoveredFrom(s: seq<u8>, h: Header, got: nat): (t: seq<u8>)
    ensures |t| == |s|
  {
    if h.mask then Masked(s, Rotated(h.key, got)) else s
  }

  /** The prepared key is two copies of the header's key as it stands after got octets. */
  ghost predicate KeyReady(wide: bv64, h: Header, got: nat) {
    h.mask ==> TwoCopies(wide, Rotated(h.key, got))
  }

  /** A whole frame as an endpoint of this role makes it. */
  ghost predicate SentBy(f: Frame, role: Role) {
    f.Valid() && f.h == OwnHeader(f.h.op, f.h.fin, |f.payload|, role, f.h.key)
  }

  /** A frame on the wire: the printed header, then the covered payload. */
  function Wire(f: Frame): seq<u8>
    requires f.h.Valid()
  {
    Print(f.h) + Covered(f.payload, f.h)
  }

  function WireAll(fs: seq<Frame>): seq<u8>
    requires forall i :: 0 <= i < |fs| ==> fs[i].h.Valid()
  {
    if fs == [] then [] else Wire(fs[0]) + WireAll(fs[1..])
  }

  function Headers(fs: seq<Frame>): (hs: seq<Header>)
    ensures |hs| == |fs|
  {
    seq(|fs|, i requires 0 <= i < |fs| => fs[i].h)
  }

  /** One buffer of payload, got octets into it, unmasked in place with the key carried over. */
  method Unmask(r: Receiver, chunk: seq<u8>, ghost got: nat) returns (plain: seq<u8>)
    requires KeyReady(r.rdKey, r.rdFh, got)
    modifies r`rdKey
    ensures plain == CoveredFrom(chunk, r.rdFh, got)
    ensures KeyReady(r.rdKey, r.rdFh, got + |chunk|)
  {
    hide Masked, Rotated, TwoCopies;
    if !r.rdFh.mask {
      return chunk;
    }
    var mem := new u8[|chunk|](i requires 0 <= i < |chunk| => chunk[i]);
    assert mem[..] == chunk;
    ghost var key := Rotated(r.rdFh.key, got);
    r.rdKey := MaskGeneral64(MutableBuffer(mem, 0, |chunk|), r.rdKey, key);
    RotatedAppend(r.rdFh.key, got, |chunk|);
    SplicedWhole(chunk, key);
    plain := mem[..];
  }

  lemma SplicedWhole(s: seq<u8>, key: bv32)
    ensures Spliced(s, 0, |s|, key) == Masked(s, key)
  {
    hide Masked;
    assert s[0..|s|] == s;
  }

  /** read_some() and what is done with the octets: at least one of those needed, if any are, and
      unmasked with the key carried over. */
  method ReadSome(r: Receiver, db: Streambuf, ghost got: nat) returns (plain: seq<u8>)
    requires db.Valid() && (r.rdNeed > 0 ==> db.Data() != []) && KeyReady(r.rdKey, r.rdFh, got)
    modifies r`rdKey, r`rdNeed, db`inp
    ensures db.Valid() && r.rdNeed + |plain| == old(r.rdNeed) && (old(r.rdNeed) > 0 ==> plain != [])
    ensures |plain| <= |old(db.Data())| && db.Data() == old(db.Data())[|plain|..]
    ensures plain == CoveredFrom(old(db.Data())[..|plain|], r.rdFh, got)
    ensures KeyReady(r.rdKey, r.rdFh, got + |plain|)
  {
    hide KeyReady, CoveredFrom, Streambuf.Data;
    var transferred: nat := 0;
    if r.rdNeed > 0 {
      assert 1 <= r.rdNeed && 1 <= db.Size();
      transferred :| 1 <= transferred <= r.rdNeed && transferred <= db.Size();
    }
    var chunk := db.Take(transferred);
    r.rdNeed := r.rdNeed - transferred;
    plain := Unmask(r, chunk, got);
  }

  /** The payload of a data frame, read in pieces of whatever size the stream gives. */
  method ReadPayload(r: Receiver, db: Streambuf) returns (payload: seq<u8>)
    requires db.Valid() && r.rdNeed <= |db.Data()| && KeyReady(r.rdKey, r.rdFh, 0)
    modifies r`rdKey, r`rdNeed, db`inp
    ensures db.Valid() && r.rdNeed == 0 && db.Data() == old(db.Data()[r.rdNeed..])
    ensures payload == Covered(old(db.Data()[..r.rdNeed]), r.rdFh)
  {
    hide KeyReady, Covered, CoveredFrom, Streambuf.Data;
    ghost var d, n, got := db.Data(), r.rdNeed, 0;
    payload := [];
    PayloadStart(d, r.rdFh);
    while r.rdNeed > 0
      invariant db.Valid() && got + r.rdNeed == n && db.Data() == d[got..]
      invariant KeyReady(r.rdKey, r.rdFh, got)
      invariant payload == Covered(d[..got], r.rdFh)
    {
      var plain := ReadSome(r, db, got);
      PayloadStep(d, got, |plain|, r.rdFh);
      payload := payload + plain;
      got := got + |plain|;
    }
  }

  lemma CoveredNone(h: Header)
    ensures Covered([], h) == []
  {
  }

  lemma PayloadStart(d: seq<u8>, h: Header)
    ensures Covered(d[..0], h) == [] && d[0..] == d
  {
    assert d[..0] == [];
    CoveredNone(h);
  }

  lemma PayloadStep(d: seq<u8>, got: nat, n: nat, h: Header)
    requires got + n <= |d|
    ensures d[got..][..n] == d[got..got + n] && d[got..][n..] == d[got + n..]
    ensures Covered(d[..got], h) + CoveredFrom(d[got..][..n], h, got) == Covered(d[..got + n], h)
  {
    hide Masked, Rotated;
    assert d[got..][..n] == d[got..got + n] && d[got..][n..] == d[got + n..];
    MaskedAppend(d[..got], d[got..got + n], h.key);
    TakeMore(d, got, n);
  }

  /** One frame: its header, then as many octets of payload as the header says. */
  method ReceiveFrame(r: Receiver, db: Streambuf) returns (o: Outcome, f: Frame)
    requires r.Valid() && db.Valid() && r.rdNeed == 0
    modifies r`rdFh, r`rdKey, r`rdSize, r`rdOpcode, r`rdNeed, r`rdCont, db`inp
    ensures r.Valid() && db.Valid()
    ensures o.Done? ==>
      && f.Valid() && old(db.Data()) == Wire(f) + db.Data() && r.rdNeed == 0
      && Admissible(f.h, old(r.St()), r.Cfg()) && r.St() == Next(f.h, old(r.St()))
    ensures o.Failed? ==> FailsWith(o.code, old(db.Data()), old(r.St()), r.Cfg())
    ensures o.Eof? ==> forall g: Frame :: g.Valid() ==> !(Wire(g) <= old(db.Data()))
    ensures o.Eof? ==> !Rejects(old(db.Data()), old(r.St()), r.Cfg())
  {
    hide Describes, Admissible, Next, TwoCopies, HeaderLength, FailsWith, Rejects, Wire, Covered, Rotated;
    hide Streambuf.Data;
    ghost var d, st := db.Data(), r.St();
    f := Frame(r.rdFh, []);
    o := ReadHeader(r, db);
    if !o.Done? {
      if o.Eof? {
        NoHeader(d);
      }
      return;
    }
    ghost var n := HeaderLength(d);
    if db.Size() < r.rdFh.len {
      NoPayload(d, r.rdFh);
      AdmissibleNotRejected(d, r.rdFh, st, r.Cfg());
      return Eof, f;
    }
    var h := r.rdFh;
    RotatedNone(h.key);
    r.rdNeed := h.len;
    var payload := ReadPayload(r, db);
    f := Frame(h, payload);
    WireOf(d, h, payload);
  }

  lemma RotatedNone(key: bv32)
    ensures Rotated(key, 0) == key
  {
  }

  /** Too few octets for a header are too few for a frame. */
  lemma NoHeader(d: seq<u8>)
    requires |d| < 2 || |d| < HeaderLength(d)
    ensures forall g: Frame :: g.h.Valid() ==> !(Wire(g) <= d)
  {
    hide Wire;
    forall g: Frame | g.h.Valid() ensures !(Wire(g) <= d) {
      if Wire(g) <= d {
        WireStarts(d, g);
      }
    }
  }

  lemma NoPayload(d: seq<u8>, h: Header)
    requires |d| >= 2 && HeaderLength(d) <= |d| < HeaderLength(d) + h.len
    requires Describes(d[..HeaderLength(d)], h)
    ensures forall g: Frame :: g.Valid() ==> !(Wire(g) <= d)
  {
    hide Wire, Describes, HeaderLength;
    forall g: Frame | g.Valid() ensures !(Wire(g) <= d) {
      if Wire(g) <= d {
        WireStarts(d, g);
        DescribesPrefix(d, HeaderLength(d), |Print(g.h)|, h, g.h);
      }
    }
  }

  /** The front of a stream that holds a header: the frame, as much of it as there is. */
  lemma FrontOf(d: seq<u8>, h: Header, payload: seq<u8>)
    requires |d| >= 2 && HeaderLength(d) <= |d| && Describes(d[..HeaderLength(d)], h)
    requires var rest := d[HeaderLength(d)..];
      payload == Covered(if |rest| < h.len then rest else rest[..h.len], h)
    ensures Front(Frame(h, payload), d)
  {
    hide Covered, Print, Describes, HeaderLength;
    var n := HeaderLength(d);
    var rest := d[n..];
    var part := if |rest| < h.len then rest else rest[..h.len];
    DescribedIsPrinted(d[..n], h);
    CoveredTwice(part, h);
    assert part <= rest;
    assert d == d[..n] + rest;
  }

  lemma WireOf(d: seq<u8>, h: Header, payload: seq<u8>)
    requires |d| >= 2 && HeaderLength(d) + h.len <= |d| && Describes(d[..HeaderLength(d)], h)
    requires payload == Covered(d[HeaderLength(d)..][..h.len], h)
    ensures Frame(h, payload).Valid()
    ensures d == Wire(Frame(h, payload)) + d[HeaderLength(d)..][h.len..]
  {
    hide Covered, Print, Describes, HeaderLength;
    var n := HeaderLength(d);
    var rest := d[n..];
    DescribedIsPrinted(d[..n], h);
    CoveredTwice(rest[..h.len], h);
    assert rest == rest[..h.len] + rest[h.len..];
    assert d == d[..n] + rest;
  }

  /** A stream that starts with a frame starts with octets that describe its header. */
  lemma WireStarts(d: seq<u8>, g: Frame)
    requires g.h.Valid() && Wire(g) <= d
    ensures |Print(g.h)| + |g.payload| <= |d| && Describes(d[..|Print(g.h)|], g.h)
    ensures |d| >= 2 && |Print(g.h)| == HeaderLength(d)
  {
    hide Covered, Print, Describes;
    PrintDescribes(g.h);
    assert d[..|Print(g.h)|] == Print(g.h);
    DescribedIsRead(d, |Print(g.h)|, g.h, 0);
  }

  // ---- Streams of frames ----

  ghost predicate AllValid(fs: seq<Frame>) { forall i :: 0 <= i < |fs| ==> fs[i].Valid() }

  /** The frames are whole, and their headers an accepted run from st. */
  ghost predicate Sendable(fs: seq<Frame>, st: State, cfg: Config) {
    && AllValid(fs)
    && Accepted(Headers(fs), st, cfg)
  }

  lemma SendableFront(fs: seq<Frame>, st: State, cfg: Config)
    requires fs != [] && Sendable(fs, st, cfg)
    ensures fs[0].Valid() && Admissible(fs[0].h, st, cfg)
    ensures Sendable(fs[1..], Next(fs[0].h, st), cfg)
  {
    hide Admissible, Next;
    AcceptedFront(Headers(fs), st, cfg);
    assert Headers(fs)[1..] == Headers(fs[1..]);
  }

  lemma SendableParts(fs: seq<Frame>, st: State, cfg: Config)
    requires fs != [] && fs[0].Valid()
    ensures Sendable(fs, st, cfg) <==> Admissible(fs[0].h, st, cfg) && Sendable(fs[1..], Next(fs[0].h, st), cfg)
    ensures After(Headers(fs), st) == After(Headers(fs[1..]), Next(fs[0].h, st))
  {
    hide Admissible, Next, Accepted, After, Frame.Valid;
    AcceptedFront(Headers(fs), st, cfg);
    assert Headers(fs)[1..] == Headers(fs[1..]);
    assert forall i :: 1 <= i < |fs| ==> fs[i] == fs[1..][i - 1];
  }

  /** Accepted runs can be taken apart at the front too. */
  lemma {:induction false} AcceptedFront(hs: seq<Header>, st: State, cfg: Config)
    requires hs != []
    ensures Accepted(hs, st, cfg) <==> Admissible(hs[0], st, cfg) && Accepted(hs[1..], Next(hs[0], st), cfg)
    ensures After(hs, st) == After(hs[1..], Next(hs[0], st))
    decreases |hs|
  {
    hide Admissible, Next;
    var n := |hs| - 1;
    if n == 0 {
      assert hs[..0] == [] && hs[1..] == [];
    } else {
      AcceptedFront(hs[..n], st, cfg);
      assert hs[..n][1..] == hs[1..][..n - 1];
    }
  }

  lemma {:induction false} WireAllAppend(fs: seq<Frame>, f: Frame)
    requires (forall i :: 0 <= i < |fs| ==> fs[i].h.Valid()) && f.h.Valid()
    ensures forall i :: 0 <= i < |fs + [f]| ==> (fs + [f])[i].h.Valid()
    ensures WireAll(fs + [f]) == WireAll(fs) + Wire(f)
    decreases |fs|
  {
    hide Wire;
    if fs == [] {
      assert fs + [f] == [f] && [f][1..] == [];
      assert WireAll([f]) == Wire(f) + WireAll([]);
    } else {
      var g, rest := fs[0], fs[1..];
      WireAllAppend(rest, f);
      assert (fs + [f])[0] == g && (fs + [f])[1..] == rest + [f];
      assert Wire(g) + (WireAll(rest) + Wire(f)) == (Wire(g) + WireAll(rest)) + Wire(f);
    }
  }

  lemma WireFront(f: Frame, fs: seq<Frame>)
    requires f.h.Valid() && forall i :: 0 <= i < |fs| ==> fs[i].h.Valid()
    ensures forall i :: 0 <= i < |[f] + fs| ==> ([f] + fs)[i].h.Valid()
    ensures WireAll([f] + fs) == Wire(f) + WireAll(fs)
  {
    hide Wire, Header.Valid;
    assert ([f] + fs)[1..] == fs;
  }

  lemma {:induction false} WireAllConcat(fs: seq<Frame>, gs: seq<Frame>)
    requires forall i :: 0 <= i < |fs| ==> fs[i].h.Valid()
    requires forall i :: 0 <= i < |gs| ==> gs[i].h.Valid()
    ensures forall i :: 0 <= i < |fs + gs| ==> (fs + gs)[i].h.Valid()
    ensures WireAll(fs + gs) == WireAll(fs) + WireAll(gs)
    decreases |fs|
  {
    hide Wire, WireAll, Header.Valid;
    if fs == [] {
      assert fs + gs == gs;
      NoFrames();
    } else {
      var f, rest := fs[0], fs[1..];
      WireAllConcat(rest, gs);
      WireFront(f, rest);
      WireFront(f, rest + gs);
      assert fs == [f] + rest && fs + gs == [f] + (rest + gs);
      Assoc(Wire(f), WireAll(rest), WireAll(gs));
    }
  }

  lemma NoFrames()
    ensures WireAll([]) == []
  {
  }

  /** As much of frame f as there is stands at the front of d. */
  ghost predicate Front(f: Frame, d: seq<u8>) {
    f.h.Valid() && |f.payload| <= f.h.len && Wire(f) <= d && (|f.payload| < f.h.len ==> Wire(f) == d)
  }

  lemma WholeIsFront(f: Frame, d: seq<u8>)
    ensures f.Valid() && Wire(f) <= d <==> Front(f, d) && |f.payload| == f.h.len
  {
    hide Wire;
  }

  /** A stream starts with one frame only, even with one that is cut off. */
  lemma OneFront(d: seq<u8>, f: Frame, g: Frame)
    requires Front(f, d) && Front(g, d)
    ensures f == g
  {
    hide Print, Covered, Describes, HeaderLength;
    WireStarts(d, f);
    WireStarts(d, g);
    var n, k := |Print(f.h)|, |f.payload|;
    DescribesPrefix(d, n, |Print(g.h)|, f.h, g.h);
    assert k == |g.payload|;
    assert d[n..][..k] == Covered(f.payload, f.h);
    assert d[n..][..k] == Covered(g.payload, g.h);
    CoveredTwice(f.payload, f.h);
    CoveredTwice(g.payload, g.h);
  }

  lemma OneFrame(d: seq<u8>, f: Frame, g: Frame)
    requires f.Valid() && g.Valid() && Wire(f) <= d && Wire(g) <= d
    ensures f == g
  {
    hide Wire, Front;
    WholeIsFront(f, d);
    WholeIsFront(g, d);
    OneFront(d, f, g);
  }

  lemma NotHopeless(d: seq<u8>, g: Frame, st: State, cfg: Config)
    requires g.h.Valid() && Wire(g) <= d && Admissible(g.h, st, cfg)
    ensures !Hopeless(d, st, cfg)
  {
    hide Wire, Print, Describes, Admissible;
    WireStarts(d, g);
    assert d + [] == d;
  }

  /** How reading stands: fs has been read from the stream d0, d is left, and if the stream starts
      with the frames sent, then left is what is still to come of them. */
  ghost predicate Reading(fs: seq<Frame>, left: seq<Frame>, d: seq<u8>, st: State,
                          d0: seq<u8>, sent: seq<Frame>, st0: State, cfg: Config)
  {
    && Sendable(fs, st0, cfg) && st == After(Headers(fs), st0)
    && d0 == WireAll(fs) + d
    && (Sendable(sent, st0, cfg) && WireAll(sent) <= d0 ==>
          if left == [] then sent <= fs else fs + left == sent && Sendable(left, st, cfg) && WireAll(left) <= d)
  }

  lemma ReadingStart(d0: seq<u8>, sent: seq<Frame>, st0: State, cfg: Config)
    ensures Reading([], sent, d0, st0, d0, sent, st0, cfg)
  {
    hide Wire;
  }

  /** A frame read takes the reading one frame further, and it is the frame that was sent. */
  lemma ReadingStep(fs: seq<Frame>, left: seq<Frame>, d: seq<u8>, st: State,
                    d0: seq<u8>, sent: seq<Frame>, st0: State, cfg: Config, f: Frame, d': seq<u8>)
    requires Reading(fs, left, d, st, d0, sent, st0, cfg)
    requires f.Valid() && d == Wire(f) + d' && Admissible(f.h, st, cfg)
    ensures Reading(fs + [f], if left == [] then [] else left[1..], d', Next(f.h, st), d0, sent, st0, cfg)
  {
    hide Wire, Admissible, Next, Accepted, After;
    WireAllAppend(fs, f);
    SendableAppend(fs, f, st0, cfg);
    Assoc(WireAll(fs), Wire(f), d');
    if left != [] && Sendable(sent, st0, cfg) && WireAll(sent) <= d0 {
      SendableFront(left, st, cfg);
      PrefixParts(Wire(left[0]), WireAll(left[1..]), d);
      OneFrame(d, f, left[0]);
      assert d[|Wire(f)|..] == d';
      assert fs + left == (fs + [f]) + left[1..];
    }
  }

  lemma PrefixParts<T>(a: seq<T>, b: seq<T>, s: seq<T>)
    requires a + b <= s
    ensures a <= s && b <= s[|a|..]
  {
    assert (a + b)[|a|..] == b;
  }

  /** Reading cannot stop before what was sent is read. */
  lemma ReadingGoesOn(fs: seq<Frame>, left: seq<Frame>, d: seq<u8>, st: State,
                      d0: seq<u8>, sent: seq<Frame>, st0: State, cfg: Config)
    requires Reading(fs, left, d, st, d0, sent, st0, cfg)
    requires Sendable(sent, st0, cfg) && WireAll(sent) <= d0
    ensures left == [] ==> sent <= fs && (d0 == WireAll(sent) ==> d == [] && fs == sent)
    ensures left != [] ==> d != [] && !Hopeless(d, st, cfg) && exists g: Frame :: g.Valid() && Wire(g) <= d
  {
    hide Wire, Admissible, Next, Accepted, After, Hopeless;
    if left == [] {
      NothingMore(sent, fs);
    } else {
      SendableFront(left, st, cfg);
      PrefixParts(Wire(left[0]), WireAll(left[1..]), d);
      WireNonEmpty(left[0]);
      NotHopeless(d, left[0], st, cfg);
    }
  }

  /** More frames are more octets. */
  lemma NothingMore(sent: seq<Frame>, fs: seq<Frame>)
    requires sent <= fs && AllValid(fs)
    ensures |WireAll(sent)| <= |WireAll(fs)| && (|WireAll(sent)| == |WireAll(fs)| ==> sent == fs)
  {
    hide Wire;
    var more := fs[|sent|..];
    assert fs == sent + more;
    WireAllConcat(sent, more);
    if more != [] {
      WireNonEmpty(more[0]);
    }
  }

  /** Reads frames until the stream is used up or one of them fails.  Whatever the stream holds,
      the frames returned are the ones it starts with and they are an accepted run, and none is
      missing: every accepted run that the stream starts with is among them.  If the stream is what
      some accepted run of frames prints to, exactly that run is returned. */
  method ReceiveAll(r: Receiver, db: Streambuf, ghost sent: seq<Frame>)
    returns (o: Outcome, fs: seq<Frame>)
    requires r.Valid() && db.Valid() && r.rdNeed == 0
    modifies r`rdFh, r`rdKey, r`rdSize, r`rdOpcode, r`rdNeed, r`rdCont, db`inp
    ensures Sendable(fs, old(r.St()), r.Cfg()) && WireAll(fs) <= old(db.Data())
    ensures o.Done? ==> old(db.Data()) == WireAll(fs) && r.St() == After(Headers(fs), old(r.St())) && r.rdNeed == 0
    ensures o.Failed? ==>
              FailsWith(o.code, old(db.Data())[|WireAll(fs)|..], After(Headers(fs), old(r.St())), r.Cfg())
    ensures Sendable(sent, old(r.St()), r.Cfg()) && WireAll(sent) <= old(db.Data()) ==> sent <= fs
    ensures Sendable(sent, old(r.St()), r.Cfg()) && old(db.Data()) == WireAll(sent) ==> o.Done? && fs == sent
  {
    hide Wire, Admissible, Next, Hopeless, TooBig, Reading, Sendable, WireAll, After, Streambuf.Data;
    fs := [];
    o := Done;
    ghost var left, d0, st0, cfg := sent, db.Data(), r.St(), r.Cfg();
    ReadingStart(d0, sent, st0, cfg);
    while db.Size() > 0
      invariant r.Valid() && db.Valid() && r.rdNeed == 0 && o == Done
      invariant Reading(fs, left, db.Data(), r.St(), d0, sent, st0, cfg)
      decreases |db.Data()|
    {
      ghost var d, st := db.Data(), r.St();
      ReadingParts(fs, left, d, st, d0, sent, st0, cfg);
      var f;
      o, f := ReceiveFrame(r, db);
      if !o.Done? {
        return;
      }
      ReadingStep(fs, left, d, st, d0, sent, st0, cfg, f, db.Data());
      WireNonEmpty(f);
      left := if left == [] then [] else left[1..];
      fs := fs + [f];
    }
    ReadingParts(fs, left, db.Data(), r.St(), d0, sent, st0, cfg);
  }

  lemma ReadingParts(fs: seq<Frame>, left: seq<Frame>, d: seq<u8>, st: State,
                     d0: seq<u8>, sent: seq<Frame>, st0: State, cfg: Config)
    requires Reading(fs, left, d, st, d0, sent, st0, cfg)
    ensures Sendable(fs, st0, cfg) && st == After(Headers(fs), st0) && WireAll(fs) <= d0
    ensures d == d0[|WireAll(fs)|..] && (d == [] ==> d0 == WireAll(fs))
    ensures Sendable(sent, st0, cfg) && WireAll(sent) <= d0 ==>
      && (left == [] ==> sent <= fs && (d0 == WireAll(sent) ==> d == [] && fs == sent))
      && (left != [] ==> d != [] && !Hopeless(d, st, cfg) && exists g: Frame :: g.Valid() && Wire(g) <= d)
  {
    hide Wire, Hopeless, Accepted, After;
    if Sendable(sent, st0, cfg) && WireAll(sent) <= d0 {
      ReadingGoesOn(fs, left, d, st, d0, sent, st0, cfg);
    }
  }

  lemma SendableNone(st: State, cfg: Config)
    ensures Sendable([], st, cfg) && After(Headers([]), st) == st
  {
  }

  lemma WireNonEmpty(f: Frame)
    requires f.h.Valid()
    ensures |Wire(f)| >= 2
  {
    hide Print;
  }

  lemma SendableAppend(fs: seq<Frame>, f: Frame, st: State, cfg: Config)
    requires Sendable(fs, st, cfg) && f.Valid() && Admissible(f.h, After(Headers(fs), st), cfg)
    ensures Sendable(fs + [f], st, cfg)
    ensures After(Headers(fs + [f]), st) == Next(f.h, After(Headers(fs), st))
  {
    hide Admissible, Next;
    assert Headers(fs + [f]) == Headers(fs) + [f.h];
    assert Headers(fs + [f])[..|fs|] == Headers(fs);
  }

  /** A stream of whole frames can be cut up in one way only, accepted or not. */
  lemma {:induction false} StreamsAreUnambiguous(fs: seq<Frame>, gs: seq<Frame>)
    requires AllValid(fs) && AllValid(gs)
    requires WireAll(fs) == WireAll(gs)
    ensures fs == gs
    decreases |fs|
  {
    hide Wire;
    if fs == [] {
      if gs != [] {
        WireNonEmpty(gs[0]);
      }
    } else {
      WireNonEmpty(fs[0]);
      assert gs != [];
      OneFrame(WireAll(fs), fs[0], gs[0]);
      assert WireAll(fs)[|Wire(fs[0])|..] == WireAll(fs[1..]);
      assert WireAll(gs)[|Wire(gs[0])|..] == WireAll(gs[1..]);
      StreamsAreUnambiguous(fs[1..], gs[1..]);
      assert fs == [fs[0]] + fs[1..] && gs == [gs[0]] + gs[1..];
    }
  }
}
