/** The receiving half of include/beast/websocket/detail/stream_base.hpp. */
module StreamBase {
  import opened Bytes
  import opened Masking
  import opened Endian
  import opened FrameHeader
  import opened Protocol
  import opened StaticStreambuf

  /** close_code values that header parsing can produce. */
  const NONE: nat := 0
  const PROTOCOL_ERROR: nat := 1002
  const TOO_BIG: nat := 1009

  /** The header as read_fh1() leaves it: length field instead of length, key not yet read. */
  function Fixed(b0: u8, b1: u8, key: bv32): Header {
    FieldRanges(b0);
    Header(OpcodeIn(b0), Bit(b0, 0x80), Bit(b1, 0x80), Bit(b0, 0x40), Bit(b0, 0x20), Bit(b0, 0x10),
           LengthField(b1), key)
  }

  lemma FixedIs(h: Header, b0: u8, b1: u8)
    requires h.op == OpcodeIn(b0) && h.fin == Bit(b0, 0x80) && h.mask == Bit(b1, 0x80)
    requires h.rsv1 == Bit(b0, 0x40) && h.rsv2 == Bit(b0, 0x20) && h.rsv3 == Bit(b0, 0x10)
    requires h.len == LengthField(b1)
    ensures h == Fixed(b0, b1, h.key)
  {
    hide OpcodeIn, LengthField, Bit;
  }

  function KeySize(mask: bool): nat { if mask then 4 else 0 }

  /** The length that the octets after the fixed header give. */
  function FullLength(field: nat, d: seq<u8>): nat
    requires Extra(field) <= |d|
  {
    if Extra(field) == 0 then field else BigEndian(d[..Extra(field)])
  }

  /** The length was written in the fewest octets. */
  predicate Minimal(field: nat, len: nat) {
    (field == 126 ==> 126 <= len) && (field == 127 ==> 65536 <= len)
  }

  /** The header once read_fh2() has completed it. */
  function Whole(f: Header, d: seq<u8>): Header
    requires Extra(f.len) + KeySize(f.mask) <= |d|
  {
    var ext := Extra(f.len);
    f.(len := FullLength(f.len, d), key := if f.mask then LittleUint32(d[ext..ext + 4]) else 0)
  }

  class Receiver {
    var role: Role
    var rdMsgMax: nat
    var rdFh: Header
    var rdKey: bv64
    var rdSize: nat
    var rdNeed: nat
    var rdOpcode: opcode
    var rdCont: bool

    /** The widths of the fields. */
    ghost predicate Valid()
      reads this
    {
      rdMsgMax < TWO_64 && rdSize < TWO_64
    }

    ghost function Cfg(): Config
      reads this
    {
      Config(role, rdMsgMax)
    }

    ghost function St(): State
      reads this
    {
      State(rdCont, rdSize, rdOpcode)
    }

    /** stream_base(): a limit of 16MB.  What the source leaves uninitialised is arbitrary. */
    constructor ()
      ensures Valid() && rdMsgMax == 16 * 1024 * 1024 && rdNeed == 0
    {
      rdMsgMax := 16 * 1024 * 1024;
      rdNeed := 0;
      rdSize := 0;
    }

    /** open() as far as reading goes. */
    method Open(r: Role)
      modifies this
      ensures role == r && rdNeed == 0 && !rdCont
      ensures rdMsgMax == old(rdMsgMax) && rdSize == old(rdSize) && rdOpcode == old(rdOpcode)
    {
      role := r;
      rdNeed := 0;
      rdCont := false;
    }

    /** The first half of read_fh1(): taking the two octets apart. */
    method ParseFh1(db: Streambuf) returns (need: nat)
      requires db.Valid() && |db.Data()| >= 2
      modifies this`rdFh, db`inp
      ensures db.Valid() && db.Data() == old(db.Data()[2..]) && db.Room() == old(db.Room())
      ensures rdFh == Fixed(old(db.Data()[0]), old(db.Data()[1]), old(rdFh.key))
      ensures need == Extra(rdFh.len) + KeySize(rdFh.mask)
    {
      hide OpcodeIn, LengthField, Bit, Fixed, Streambuf.Data;
      var b := db.Take(2);
      FieldRanges(b[0]);
      var fh := rdFh.(len := LengthField(b[1]));
      if fh.len == 126 { need := 2; } else if fh.len == 127 { need := 8; } else { need := 0; }
      fh := fh.(mask := Bit(b[1], 0x80));
      if fh.mask {
        need := need + 4;
      }
      fh := fh.(op := OpcodeIn(b[0]), fin := Bit(b[0], 0x80), rsv1 := Bit(b[0], 0x40),
                rsv2 := Bit(b[0], 0x20), rsv3 := Bit(b[0], 0x10));
      FixedIs(fh, b[0], b[1]);
      rdFh := fh;
    }

    /** The switch of read_fh1() and the two role checks after it. */
    method CheckFh1() returns (code: nat)
      ensures code == if WellFormed(rdFh, role) && Expected(rdFh, rdCont) then NONE else PROTOCOL_ERROR
    {
      if rdFh.op == BINARY || rdFh.op == TEXT {
        if rdCont {
          return PROTOCOL_ERROR;
        }
        if rdFh.rsv1 || rdFh.rsv2 || rdFh.rsv3 {
          return PROTOCOL_ERROR;
        }
      } else if rdFh.op == CONT {
        if !rdCont {
          return PROTOCOL_ERROR;
        }
        if rdFh.rsv1 || rdFh.rsv2 || rdFh.rsv3 {
          return PROTOCOL_ERROR;
        }
      } else {
        if IsReserved(rdFh.op) {
          return PROTOCOL_ERROR;
        }
        if !rdFh.fin {
          return PROTOCOL_ERROR;
        }
        if rdFh.len > 125 {
          return PROTOCOL_ERROR;
        }
        if rdFh.rsv1 || rdFh.rsv2 || rdFh.rsv3 {
          return PROTOCOL_ERROR;
        }
      }
      if role == Server && !rdFh.mask {
        return PROTOCOL_ERROR;
      }
      if role == Client && rdFh.mask {
        return PROTOCOL_ERROR;
      }
      return NONE;
    }

    /** read_fh1(): the two fixed octets.  The code is NONE exactly for a well-formed header that
        is expected here, and need is then the number of header octets still to come. */
    method ReadFh1(db: Streambuf) returns (need: nat, code: nat)
      requires db.Valid() && |db.Data()| >= 2
      modifies this`rdFh, db`inp
      ensures db.Valid() && db.Data() == old(db.Data()[2..]) && db.Room() == old(db.Room())
      ensures rdFh == Fixed(old(db.Data()[0]), old(db.Data()[1]), old(rdFh.key))
      ensures code == if WellFormed(rdFh, role) && Expected(rdFh, rdCont) then NONE else PROTOCOL_ERROR
      ensures need == if code == NONE then Extra(rdFh.len) + KeySize(rdFh.mask) else 0
    {
      hide Fixed, WellFormed, Expected;
      need := ParseFh1(db);
      code := CheckFh1();
      if code != NONE {
        need := 0;
      }
    }

    /** The switch of read_fh2(): false for a length that is not written in the fewest octets. */
    method ReadLength(db: Streambuf) returns (ok: bool)
      requires db.Valid() && rdFh.len < 128 && |db.Data()| >= Extra(rdFh.len)
      modifies this`rdFh, db`inp
      ensures db.Valid() && db.Room() == old(db.Room())
      ensures rdFh == old(rdFh).(len := FullLength(old(rdFh.len), old(db.Data())))
      ensures rdFh.len < TWO_64
      ensures ok <==> Minimal(old(rdFh.len), rdFh.len)
      ensures db.Data() == old(db.Data()[Extra(rdFh.len)..])
    {
      hide BigEndian, Val;
      if rdFh.len == 126 {
        var b := db.Take(2);
        BigUint16IsBigEndian(b);
        rdFh := rdFh.(len := BigUint16(b));
        ok := rdFh.len >= 126;
      } else if rdFh.len == 127 {
        var b := db.Take(8);
        BigUint64IsBigEndian(b);
        rdFh := rdFh.(len := BigUint64(b));
        ok := rdFh.len >= 65536;
      } else {
        ok := true;
      }
    }

    /** The key part of read_fh2(). */
    method ReadKey(db: Streambuf)
      requires db.Valid() && |db.Data()| >= KeySize(rdFh.mask)
      modifies this`rdFh, this`rdKey, db`inp
      ensures db.Valid() && db.Room() == old(db.Room())
      ensures rdFh == old(rdFh.(key := if rdFh.mask then LittleUint32(db.Data()[..4]) else 0))
      ensures rdFh.mask ==> TwoCopies(rdKey, rdFh.key)
      ensures db.Data() == old(db.Data()[KeySize(rdFh.mask)..])
    {
      hide LittleUint32, TwoCopies, Doubled;
      if rdFh.mask {
        var b := db.Take(4);
        rdFh := rdFh.(key := LittleUint32(b));
      } else {
        rdFh := rdFh.(key := 0);
      }
      if rdFh.mask {
        rdKey := Doubled(rdFh.key);
        DoubledIsTwoCopies(rdFh.key);
      }
    }

    /** The account of the message at the end of read_fh2(). */
    method Account() returns (code: nat)
      requires Valid() && rdFh.len < TWO_64
      modifies this`rdSize, this`rdOpcode, this`rdNeed, this`rdCont
      ensures Valid()
      ensures code == if IsControl(rdFh.op) || Fits(SizeAfter(rdFh, old(St())), rdMsgMax) then NONE else TOO_BIG
      ensures code == NONE ==> St() == Next(rdFh, old(St()))
      ensures code == NONE ==> rdNeed == if IsControl(rdFh.op) then old(rdNeed) else rdFh.len
    {
      if !IsControl(rdFh.op) {
        if rdFh.op != CONT {
          rdSize := rdFh.len;
          rdOpcode := rdFh.op;
        } else {
          if rdSize > TWO_64 - 1 - rdFh.len {
            return TOO_BIG;
          }
          rdSize := rdSize + rdFh.len;
        }
        if rdMsgMax != 0 && rdSize > rdMsgMax {
          return TOO_BIG;
        }
        rdNeed := rdFh.len;
        rdCont := !rdFh.fin;
      }
      return NONE;
    }

    /** read_fh2(): the extended length, the key, and the account of the message. */
    method ReadFh2(db: Streambuf) returns (code: nat)
      requires Valid() && db.Valid()
      requires rdFh.len < 128 && |db.Data()| >= Extra(rdFh.len) + KeySize(rdFh.mask)
      modifies this`rdFh, this`rdKey, this`rdSize, this`rdOpcode, this`rdNeed, this`rdCont, db`inp
      ensures Valid() && db.Valid() && db.Room() == old(db.Room())
      ensures !Minimal(old(rdFh.len), FullLength(old(rdFh.len), old(db.Data()))) ==>
                code == PROTOCOL_ERROR && St() == old(St()) && rdNeed == old(rdNeed)
      ensures Minimal(old(rdFh.len), FullLength(old(rdFh.len), old(db.Data()))) ==>
        && rdFh == Whole(old(rdFh), old(db.Data()))
        && db.Data() == old(db.Data()[Extra(rdFh.len) + KeySize(rdFh.mask)..])
        && (rdFh.mask ==> TwoCopies(rdKey, rdFh.key))
        && code == (if IsControl(rdFh.op) || Fits(SizeAfter(rdFh, old(St())), rdMsgMax) then NONE else TOO_BIG)
        && (code == NONE ==> St() == Next(rdFh, old(St())))
        && (code == NONE ==> rdNeed == if IsControl(rdFh.op) then old(rdNeed) else rdFh.len)
    {
      hide BigEndian, LittleUint32, TwoCopies, Next, Fits;
      ghost var d, ext := db.Data(), Extra(rdFh.len);
      var ok := ReadLength(db);
      if !ok {
        return PROTOCOL_ERROR;
      }
      assert d[ext..][..KeySize(rdFh.mask)] == d[ext..ext + KeySize(rdFh.mask)];
      ReadKey(db);
      assert d[ext..][KeySize(rdFh.mask)..] == d[ext + KeySize(rdFh.mask)..];
      code := Account();
    }
  }
}
