/** The header printer write() of include/beast/websocket/detail/frame.hpp. */
module FrameWriter {
  import opened Bytes
  import opened Endian
  import opened FrameHeader
  import opened StaticStreambuf

  /** b[0] of write() */
  method WriteFirst(b: array<u8>, fh: Header)
    requires b.Length == 14
    modifies b
    ensures b[0] == FirstOctet(fh)
  {
    hide OctetOf;
    b[0] := If(fh.fin, 0x80) | OctetOf(fh.op);
    if fh.rsv1 { b[0] := b[0] | 0x40; }
    if fh.rsv2 { b[0] := b[0] | 0x20; }
    if fh.rsv3 { b[0] := b[0] | 0x10; }
  }

  /** The second octet: the mask bit, and the length field added to it. */
  method WriteSecond(b: array<u8>, mask: bool, field: nat)
    requires b.Length == 14 && field < 128
    modifies b
    ensures b[1] == SecondOctet(mask, field) && b[0] == old(b[0])
  {
    hide OctetOf;
    b[1] := If(mask, 0x80);
    b[1] := b[1] | OctetOf(field);
  }

  /** b[1] and the extended length; returns the octets used so far. */
  method WriteLength(b: array<u8>, fh: Header) returns (n: nat)
    requires b.Length == 14 && fh.Valid()
    modifies b
    ensures 2 <= n <= 10 && b[0] == old(b[0]) && b[1..n] == LengthOctets(fh)
  {
    hide ToBig, SecondOctet;
    if fh.len <= 125 {
      WriteSecond(b, fh.mask, fh.len);
      n := 2;
    } else if fh.len <= 65535 {
      WriteSecond(b, fh.mask, 126);
      Store(b, 2, ToBig(fh.len, 2));
      n := 4;
    } else {
      WriteSecond(b, fh.mask, 127);
      Store(b, 2, ToBig(fh.len, 8));
      n := 10;
    }
    assert b[1..n] == [b[1]] + b[2..n];
  }

  /** write(): the header is built in fourteen octets and the first n of them are committed. */
  method WriteHeader(db: Streambuf, fh: Header) returns (ok: bool)
    requires db.Valid() && fh.Valid()
    modifies db`last, db`out, db.mem
    ensures db.Valid() && (ok <==> |Print(fh)| <= old(db.Room()))
    ensures db.Data() == if ok then old(db.Data()) + Print(fh) else old(db.Data())
    ensures db.Room() == if ok then old(db.Room()) - |Print(fh)| else old(db.Room())
  {
    hide LittleOctets, FirstOctet, LengthOctets;
    var b := new u8[14];
    WriteFirst(b, fh);
    var n := WriteLength(b, fh);
    assert b[..n] == [b[0]] + b[1..n];
    ghost var front := b[..n];
    if fh.mask {
      Store(b, n, LittleOctets(fh.key));
      n := n + 4;
      assert b[..n] == front + LittleOctets(fh.key);
    }
    ok := db.Put(b[..n]);
  }

  /** Octets s written over b from p on. */
  method Store(b: array<u8>, p: nat, s: seq<u8>)
    requires p + |s| <= b.Length
    modifies b
    ensures b[..p] == old(b[..p]) && b[p..p + |s|] == s
    ensures forall k :: 0 <= k < p ==> b[k] == old(b[k])
  {
    forall k | 0 <= k < |s| {
      b[p + k] := s[k];
    }
  }
}
