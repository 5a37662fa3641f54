/** Chunked transfer coding: include/beast/http/detail/chunk_encode.hpp, and unhex() of
    include/beast/http/detail/rfc7230.hpp, against section 4.1 of RFC 7230. */
module ChunkEncode {
  import opened Bytes
  import opened Rfc7230
  import opened BufferCat

  const CRLF: text := ['\r', '\n']

  // ---- Hexadecimal numbers ----

  /** Rows of the table of unhex(): x for -1. */
  const UNHEX: seq<seq<int>> := [NOHEX, NOHEX, NOHEX, DECIMAL, LETTERS, NOHEX, LETTERS, NOHEX]

  const NOHEX: seq<int> := [-1, -1, -1, -1, -1, -1, -1, -1, -1, -1, -1, -1, -1, -1, -1, -1]
  const DECIMAL: seq<int> := [0, 1, 2, 3, 4, 5, 6, 7, 8, 9, -1, -1, -1, -1, -1, -1]
  const LETTERS: seq<int> := [-1, 10, 11, 12, 13, 14, 15, -1, -1, -1, -1, -1, -1, -1, -1, -1]

  /** unhex(): only 128 of the 256 entries are written down, the others are 0. */
  function Unhex(c: octet): int {
    if c as int < 128 then UNHEX[c as int / 16][c as int % 16] else 0
  }

  /** HEXDIG, in either case */
  predicate Hexdig(c: octet) { '0' <= c <= '9' || 'A' <= c <= 'F' || 'a' <= c <= 'f' }

  lemma UnhexRow(r: nat, k: nat)
    requires r < 8 && k < 16
    ensures -1 <= UNHEX[r][k] < 16
    ensures var n := 16 * r + k;
      UNHEX[r][k] != -1 <==> 48 <= n <= 57 || 65 <= n <= 70 || 97 <= n <= 102
  {
    if r == 3 {
    } else if r == 4 {
    } else if r == 6 {
    } else {
    }
  }

  /** unhex() tells hexadecimal digits from other ASCII characters, and nothing about the rest. */
  lemma UnhexTable(c: octet)
    ensures Hexdig(c) ==> 0 <= Unhex(c) < 16
    ensures c as int < 128 ==> (Hexdig(c) <==> Unhex(c) != -1)
    ensures c as int >= 128 ==> !Hexdig(c) && Unhex(c) == Unhex('0')
  {
    var n := c as int;
    if n < 128 {
      UnhexRow(n / 16, n % 16);
    }
  }

  /** The value of each digit. */
  lemma UnhexDigits(c: octet, k: nat)
    ensures k < 10 && c as int == '0' as int + k ==> Unhex(c) == k
    ensures k < 6 && (c as int == 'A' as int + k || c as int == 'a' as int + k) ==> Unhex(c) == 10 + k
  {
    var n := c as int;
    if k < 10 && n == 48 + k {
      assert n / 16 == 3 && n % 16 == k;
    } else if k < 6 && n == 65 + k {
      assert n / 16 == 4 && n % 16 == 1 + k;
    } else if k < 6 && n == 97 + k {
      assert n / 16 == 6 && n % 16 == 1 + k;
    }
  }

  predicate IsHex(h: text) { h != [] && forall k :: 0 <= k < |h| ==> Hexdig(h[k]) }

  /** chunk-size: the digits folded with unhex(). */
  function HexValue(h: text): int {
    if h == [] then 0 else 16 * HexValue(h[..|h| - 1]) + Unhex(h[|h| - 1])
  }

  lemma {:induction false} HexValueNat(h: text)
    requires forall k :: 0 <= k < |h| ==> Hexdig(h[k])
    ensures HexValue(h) >= 0
    decreases |h|
  {
    if h != [] {
      HexValueNat(h[..|h| - 1]);
      UnhexTable(h[|h| - 1]);
    }
  }

  /** The digits of to_hex(). */
  const DIGITS: text := ['0', '1', '2', '3', '4', '5', '6', '7', '8', '9', 'a', 'b', 'c', 'd', 'e', 'f']

  /** The digit for n, in lower case. */
  function HexDigit(n: nat): (c: octet)
    requires n < 16
  {
    if n < 10 then '0' + n as char else 'a' + (n - 10) as char
  }

  lemma HexDigitIs(n: nat)
    requires n < 16
    ensures Hexdig(HexDigit(n)) && Unhex(HexDigit(n)) == n && (HexDigit(n) == '0' <==> n == 0)
    ensures HexDigit(n) == DIGITS[n]
  {
    UnhexDigits(HexDigit(n), if n < 10 then n else n - 10);
  }

  /** The number in lower-case hexadecimal, without leading zeros. */
  function ToHex(n: nat): text {
    if n < 16 then [HexDigit(n)] else ToHex(n / 16) + [HexDigit(n % 16)]
  }

  lemma {:induction false} ToHexValue(n: nat)
    ensures IsHex(ToHex(n)) && HexValue(ToHex(n)) == n
    ensures n > 0 ==> ToHex(n)[0] != '0'
    decreases n
  {
    hide HexDigit, Unhex, Hexdig;
    HexDigitIs(n % 16);
    if n < 16 {
      assert [HexDigit(n)][..0] == [];
    } else {
      ToHexValue(n / 16);
      var front, c := ToHex(n / 16), HexDigit(n % 16);
      assert (front + [c])[..|front|] == front;
    }
  }

  /** Numbers of two digits, read back in either case. */
  lemma TwoDigits(hi: nat, lo: nat)
    requires 0 < hi < 16 && lo < 16
    ensures ToHex(16 * hi + lo) == [DIGITS[hi], DIGITS[lo]]
    ensures HexValue([DIGITS[hi], DIGITS[lo]]) == 16 * hi + lo
    ensures lo >= 10 ==> HexValue([DIGITS[hi], 'A' + (lo - 10) as char]) == 16 * hi + lo
  {
    hide HexDigit, Unhex;
    HexDigitIs(hi);
    HexDigitIs(lo);
    OneDigit(hi);
    assert (16 * hi + lo) / 16 == hi && (16 * hi + lo) % 16 == lo;
    TwoDigitValue(DIGITS[hi], DIGITS[lo]);
    if lo >= 10 {
      UnhexDigits('A' + (lo - 10) as char, lo - 10);
      TwoDigitValue(DIGITS[hi], 'A' + (lo - 10) as char);
    }
  }

  lemma OneDigit(n: nat)
    requires n < 16
    ensures ToHex(n) == [DIGITS[n]]
  {
    HexDigitIs(n);
  }

  lemma TwoDigitValue(c: octet, d: octet)
    ensures HexValue([c, d]) == 16 * Unhex(c) + Unhex(d)
  {
    hide Unhex;
    var h: text := [c, d];
    assert h[..1] == [c] && [c][..0] == [];
    assert HexValue([c]) == Unhex(c);
  }

  function Pow16(k: nat): (p: nat)
    ensures p > 0
  {
    if k == 0 then 1 else 16 * Pow16(k - 1)
  }

  lemma Pow16Size()
    ensures Pow16(16) == TWO_64
  {
    assert Pow16(4) == 0x1_0000;
    assert Pow16(8) == 0x1_0000_0000;
    assert Pow16(12) == 0x1_0000_0000_0000;
  }

  class ChunkEncodeText {
    /** 2 * sizeof(std::size_t) + 2 characters; the text is what there is from start on. */
    const buf: array<octet>
    var start: nat

    ghost predicate Valid()
      reads this
    {
      buf.Length == 18 && start <= 18
    }

    ghost function Text(): text
      requires Valid()
      reads this, buf
    {
      buf[start..]
    }

    /** to_hex(buf_.end() - 2, n) */
    method WriteHex(n: nat) returns (it: nat)
      requires buf.Length == 18 && n < TWO_64
      modifies buf
      ensures it < 16 && buf[it..16] == ToHex(n)
      ensures buf[16..] == old(buf[16..])
    {
      hide HexDigit;
      it := 16;
      if n == 0 {
        it := it - 1;
        buf[it] := '0';
        HexDigitIs(0);
        return;
      }
      Pow16Size();
      var m: nat := n;
      while m != 0
        invariant it <= 16 && m < Pow16(it)
        invariant buf[16..] == old(buf[16..])
        invariant if m == 0 then buf[it..16] == ToHex(n) else ToHex(m) + buf[it..16] == ToHex(n)
      {
        ghost var done := buf[it..16];
        ToHexStep(m, done);
        HexDigitIs(m % 16);
        it := it - 1;
        buf[it] := DIGITS[m % 16];
        assert buf[it..16] == [HexDigit(m % 16)] + done;
        m := m / 16;
      }
    }

    constructor (n: nat)
      requires n < TWO_64
      ensures Valid() && Text() == ToHex(n) + CRLF && fresh(buf)
    {
      buf := new octet[18];
      start := 0;
      new;
      buf[16] := '\r';
      buf[17] := '\n';
      var it := WriteHex(n);
      start := it;
      Halves(buf, it, 16);
    }

    /** The copy constructor: the text is that of the other object, in this one's storage. */
    constructor Copy(other: ChunkEncodeText)
      requires other.Valid()
      ensures Valid() && Text() == other.Text() && fresh(buf)
    {
      var n := 18 - other.start;
      buf := new octet[18](i requires 0 <= i < 18 reads other, other.buf requires other.Valid() => other.buf[i]);
      start := 18 - n;
    }
  }

  lemma Halves(a: array<octet>, i: nat, j: nat)
    requires i <= j <= a.Length
    ensures a[i..] == a[i..j] + a[j..]
  {
  }

  lemma ToHexStep(m: nat, done: text)
    requires m > 0
    ensures ToHex(m) + done == (if m / 16 == 0 then [] else ToHex(m / 16)) + ([HexDigit(m % 16)] + done)
  {
    hide HexDigit;
  }

  // ---- Encoding ----

  function Chunk(piece: text): text {
    ToHex(|piece|) + CRLF + piece + CRLF
  }

  /** chunk_encode_final() */
  const FINAL: text := ['0', '\r', '\n', '\r', '\n']

  function EncodeAll(pieces: seq<text>): text {
    if pieces == [] then [] else Chunk(pieces[0]) + EncodeAll(pieces[1..])
  }

  /** chunk_encode(): the buffers of the result make up one chunk. */
  method Encode(buffers: seq<text>) returns (c: BufferCatHelper<text>)
    requires |Concat(buffers)| < TWO_64
    ensures Concat(Concat(c.bs)) == Chunk(Concat(buffers))
  {
    hide ToHex, Concat;
    var size := 0;
    ConcatNone(buffers);
    for i := 0 to |buffers|
      invariant size == |Concat(buffers[..i])|
    {
      ConcatNext(buffers, i);
      size := size + |buffers[i]|;
    }
    assert buffers[..|buffers|] == buffers;
    var t := new ChunkEncodeText(size);
    c := new BufferCatHelper([[t.buf[t.start..]], buffers, [CRLF]]);
    ThreeParts(t.Text(), buffers);
  }

  lemma ConcatNone<T>(ss: seq<seq<T>>)
    ensures Concat(ss[..0]) == []
  {
  }

  lemma ThreeParts(t: text, buffers: seq<text>)
    ensures Concat(Concat([[t], buffers, [CRLF]])) == t + Concat(buffers) + CRLF
  {
    hide Concat;
    var bs := [[t], buffers, [CRLF]];
    ConcatNone(bs);
    ConcatNext(bs, 0);
    ConcatNext(bs, 1);
    ConcatNext(bs, 2);
    assert bs[..3] == bs;
    assert [] + [t] == [t];
    ConcatAppend([t], buffers);
    ConcatAppend([t] + buffers, [CRLF]);
    ConcatOne(t);
    ConcatOne(CRLF);
  }

  // ---- Section 4.1: chunked bodies, without chunk extensions and trailer ----

  predicate Zeros(z: text) { z != [] && forall k :: 0 <= k < |z| ==> z[k] == '0' }

  /** *chunk last-chunk CRLF, with the pieces as chunk-data */
  ghost predicate ChunkedBody(t: text, pieces: seq<text>)
    decreases |pieces|
  {
    if pieces == [] then exists z :: Zeros(z) && t == z + CRLF + CRLF
    else exists h, rest :: StartsWith(t, h, pieces[0], rest) && ChunkedBody(rest, pieces[1..])
  }

  ghost predicate StartsWith(t: text, h: text, data: text, rest: text) {
    && IsHex(h) && HexValue(h) == |data| > 0
    && t == h + CRLF + data + CRLF + rest
  }

  /** Pieces that are not empty are encoded as the body that consists of them. */
  lemma {:induction false} EncodedIsChunked(pieces: seq<text>)
    requires forall i :: 0 <= i < |pieces| ==> pieces[i] != []
    ensures ChunkedBody(EncodeAll(pieces) + FINAL, pieces)
    decreases |pieces|
  {
    hide ToHex, IsHex, HexValue;
    var t := EncodeAll(pieces) + FINAL;
    if pieces == [] {
      var z: text := ['0'];
      assert Zeros(z) && t == z + CRLF + CRLF;
    } else {
      EncodedIsChunked(pieces[1..]);
      var rest := EncodeAll(pieces[1..]) + FINAL;
      ToHexValue(|pieces[0]|);
      assert t == Chunk(pieces[0]) + rest;
      assert StartsWith(t, ToHex(|pieces[0]|), pieces[0], rest);
    }
  }

  // ---- Section 4.1.3: decoding ----

  datatype Decoded = Malformed | Body(pieces: seq<text>, rest: text)

  /** The number of hexadecimal digits in front. */
  function HexPrefix(t: text): (n: nat)
    ensures n <= |t| && (n < |t| ==> !Hexdig(t[n])) && forall k :: 0 <= k < n ==> Hexdig(t[k])
    decreases |t|
  {
    if t == [] then 0
    else if |t| > 0 && Hexdig(t[|t| - 1]) && HexPrefix(t[..|t| - 1]) == |t| - 1 then |t|
    else HexPrefix(t[..|t| - 1])
  }

  /** What a chunk-size in front leads to: a chunk, the end of the body, or neither. */
  datatype Turn = Broken | Last(rest: text) | More(data: text, rest: text)

  function TurnAt(t: text): (r: Turn)
    ensures r.More? ==> |r.rest| < |t|
  {
    var n := HexPrefix(t);
    HexValueNat(t[..n]);
    var size: nat := HexValue(t[..n]);
    var d := t[n..];
    if n == 0 || !(CRLF <= d) then Broken
    else if size == 0 then
      (if CRLF <= d[2..] then Last(d[4..]) else Broken)
    else if |d| < size + 4 || !(CRLF <= d[size + 2..]) then Broken
    else More(d[2..size + 2], d[size + 4..])
  }

  /** Read chunk-size and CRLF; while chunk-size is not 0, read chunk-data and CRLF and the next
      chunk-size; then read the CRLF that ends the body. */
  function Decode(t: text): Decoded
    decreases |t|
  {
    match TurnAt(t)
    case Broken => Malformed
    case Last(rest) => Body([], rest)
    case More(data, rest) =>
      match Decode(rest) {
        case Malformed => Malformed
        case Body(pieces, more) => Body([data] + pieces, more)
      }
  }

  /** The digits in front of a CRLF are those. */
  lemma HexPrefixIs(h: text, d: text)
    requires (forall k :: 0 <= k < |h| ==> Hexdig(h[k])) && CRLF <= d
    ensures HexPrefix(h + d) == |h| && (h + d)[..|h|] == h && (h + d)[|h|..] == d
  {
    var t, n := h + d, HexPrefix(h + d);
    assert t[|h|] == '\r' && !Hexdig('\r');
    assert forall k :: 0 <= k < |h| ==> t[k] == h[k];
    hide Hexdig, HexPrefix;
  }

  lemma {:induction false} ZerosValue(z: text)
    requires forall k :: 0 <= k < |z| ==> z[k] == '0'
    ensures HexValue(z) == 0 && forall k :: 0 <= k < |z| ==> Hexdig(z[k])
    decreases |z|
  {
    if z != [] {
      ZerosValue(z[..|z| - 1]);
      UnhexTable('0');
    }
  }

  lemma ChunkParts(h: text, data: text, more: text)
    ensures h + CRLF + data + CRLF + more == h + (CRLF + data + CRLF + more)
    ensures var d := CRLF + data + CRLF + more;
      && CRLF <= d && |d| >= |data| + 4 && CRLF <= d[|data| + 2..]
      && d[2..|data| + 2] == data && d[|data| + 4..] == more
  {
  }

  lemma LastParts(z: text, more: text)
    ensures z + CRLF + CRLF + more == z + (CRLF + CRLF + more)
    ensures var d := CRLF + CRLF + more; CRLF <= d && CRLF <= d[2..] && d[4..] == more
  {
  }

  lemma TurnLast(z: text, more: text)
    requires Zeros(z)
    ensures TurnAt(z + CRLF + CRLF + more) == Last(more)
  {
    hide HexPrefix, Hexdig, HexValue;
    ZerosValue(z);
    LastParts(z, more);
    HexPrefixIs(z, CRLF + CRLF + more);
  }

  lemma TurnChunk(h: text, data: text, more: text)
    requires IsHex(h) && HexValue(h) == |data| > 0
    ensures TurnAt(h + CRLF + data + CRLF + more) == More(data, more)
  {
    hide HexPrefix, Hexdig, HexValue;
    ChunkParts(h, data, more);
    HexPrefixIs(h, CRLF + data + CRLF + more);
  }

  /** What is a chunked body for the grammar is read as exactly those pieces, and reading stops at
      its end. */
  lemma {:induction false} BodyIsDecoded(t: text, pieces: seq<text>, more: text)
    requires ChunkedBody(t, pieces)
    ensures Decode(t + more) == Body(pieces, more)
    decreases |pieces|
  {
    hide TurnAt, HexValue, IsHex;
    if pieces == [] {
      var z :| Zeros(z) && t == z + CRLF + CRLF;
      TurnLast(z, more);
    } else {
      var h, rest :| StartsWith(t, h, pieces[0], rest) && ChunkedBody(rest, pieces[1..]);
      Assoc(h + CRLF + pieces[0] + CRLF, rest, more);
      TurnChunk(h, pieces[0], rest + more);
      BodyIsDecoded(rest, pieces[1..], more);
      assert [pieces[0]] + pieces[1..] == pieces;
    }
  }

  lemma HexPrefixHex(t: text)
    requires HexPrefix(t) > 0
    ensures IsHex(t[..HexPrefix(t)])
  {
    hide HexPrefix, Hexdig;
    var h := t[..HexPrefix(t)];
    assert forall k :: 0 <= k < |h| ==> h[k] == t[k];
  }

  lemma {:induction false} ZeroDigits(h: text)
    requires IsHex(h) && HexValue(h) == 0
    ensures Zeros(h)
    decreases |h|
  {
    hide Hexdig, Unhex;
    var n := |h| - 1;
    UnhexTable(h[n]);
    HexValueNat(h[..n]);
    ZeroDigit(h[n]);
    if n > 0 {
      ZeroDigits(h[..n]);
      assert forall k :: 0 <= k < n ==> h[k] == h[..n][k];
    }
  }

  lemma ZeroDigit(c: octet)
    requires Hexdig(c) && Unhex(c) == 0
    ensures c == '0'
  {
  }

  lemma JoinLast(t: text, n: nat)
    requires n <= |t| && CRLF <= t[n..] && CRLF <= t[n..][2..]
    ensures t == (t[..n] + CRLF + CRLF) + t[n..][4..]
  {
  }

  lemma JoinChunk(t: text, n: nat, size: nat, c: text)
    requires |c| == 2 && n <= |t| && size + 4 <= |t[n..]| && c <= t[n..] && c <= t[n..][size + 2..]
    ensures t == (t[..n] + c + t[n..][2..size + 2] + c) + t[n..][size + 4..]
  {
    var d := t[n..];
    var x, y := d[2..size + 2], d[size + 4..];
    Rejoin(t, n);
    FrontJoin(d, c);
    FrontJoin(d[size + 2..], c);
    assert d[2..] == x + d[size + 2..] && d[size + 2..][2..] == y;
    Assoc(t[..n], c, x + (c + y));
    Assoc(t[..n] + c, x, c + y);
    Assoc(t[..n] + c + x, c, y);
  }

  lemma FrontJoin(d: text, c: text)
    requires c <= d
    ensures d == c + d[|c|..]
  {
  }

  /** What a turn has read: digits, CRLF, and then the end or a chunk. */
  lemma TurnParts(t: text) returns (n: nat, size: nat)
    requires !TurnAt(t).Broken?
    ensures n <= |t| && CRLF <= t[n..] && IsHex(t[..n]) && HexValue(t[..n]) == size
    ensures size == 0 ==> CRLF <= t[n..][2..] && TurnAt(t) == Last(t[n..][4..])
    ensures size > 0 ==>
      && size + 4 <= |t[n..]| && CRLF <= t[n..][size + 2..]
      && TurnAt(t) == More(t[n..][2..size + 2], t[n..][size + 4..])
  {
    hide HexPrefix, HexValue, IsHex;
    n := HexPrefix(t);
    HexPrefixHex(t);
    HexValueNat(t[..n]);
    size := HexValue(t[..n]);
  }

  lemma FirstOfPieces(data: text, more: seq<text>)
    ensures ([data] + more)[0] == data && ([data] + more)[1..] == more && [data] + more != []
  {
  }

  /** And the other way round: what the procedure reads is a chunked body, of those pieces. */
  lemma {:induction false} DecodedIsBody(t: text) returns (b: text)
    requires Decode(t).Body?
    ensures ChunkedBody(b, Decode(t).pieces) && t == b + Decode(t).rest
    decreases |t|
  {
    hide TurnAt, HexValue, IsHex, Zeros;
    var n, size := TurnParts(t);
    var h, d := t[..n], t[n..];
    if size == 0 {
      ZeroDigits(h);
      JoinLast(t, n);
      b := h + CRLF + CRLF;
    } else {
      var more, data := d[size + 4..], d[2..size + 2];
      var rest := DecodedIsBody(more);
      JoinChunk(t, n, size, CRLF);
      b := h + CRLF + data + CRLF + rest;
      Assoc(h + CRLF + data + CRLF, rest, Decode(more).rest);
      FirstOfPieces(data, Decode(more).pieces);
      assert StartsWith(b, h, data, rest);
    }
  }

  /** Chunked bodies are uniquely decodable, even when something follows them. */
  lemma UniquelyDecodable(t: text, ps: seq<text>, more: text, t': text, ps': seq<text>, more': text)
    requires ChunkedBody(t, ps) && ChunkedBody(t', ps') && t + more == t' + more'
    ensures t == t' && ps == ps' && more == more'
  {
    hide Decode, ChunkedBody;
    BodyIsDecoded(t, ps, more);
    BodyIsDecoded(t', ps', more');
    assert (t + more)[..|t|] == t && (t' + more')[..|t'|] == t';
  }

  /** An empty piece is encoded as the end of the body. */
  lemma EmptyPieceEnds()
    ensures Chunk([]) == FINAL
  {
    assert ToHex(0) == ['0'];
  }

  lemma {:induction false} EncodeAllAppend(ps: seq<text>, qs: seq<text>)
    ensures EncodeAll(ps + qs) == EncodeAll(ps) + EncodeAll(qs)
    decreases |ps|
  {
    hide ToHex;
    if ps == [] {
      assert ps + qs == qs;
    } else {
      EncodeAllAppend(ps[1..], qs);
      assert (ps + qs)[0] == ps[0] && (ps + qs)[1..] == ps[1..] + qs;
      Assoc(Chunk(ps[0]), EncodeAll(ps[1..]), EncodeAll(qs));
    }
  }

  /** What a receiver makes of encoded pieces: all of them, if none is empty; otherwise those before the
      first empty one, and the rest of the octets are left over. */
  lemma DecodeEncoded(pieces: seq<text>, more: text)
    ensures (forall i :: 0 <= i < |pieces| ==> pieces[i] != []) <==>
            Decode(EncodeAll(pieces) + FINAL + more) == Body(pieces, more)
    ensures forall k :: 0 <= k < |pieces| && pieces[k] == [] && (forall i :: 0 <= i < k ==> pieces[i] != []) ==>
              Decode(EncodeAll(pieces) + FINAL + more) ==
              Body(pieces[..k], EncodeAll(pieces[k + 1..]) + FINAL + more)
  {
    hide Decode, EncodeAll, Chunk;
    var t := EncodeAll(pieces) + FINAL + more;
    if forall i :: 0 <= i < |pieces| ==> pieces[i] != [] {
      EncodedIsChunked(pieces);
      BodyIsDecoded(EncodeAll(pieces) + FINAL, pieces, more);
    }
    forall k | 0 <= k < |pieces| && pieces[k] == [] && (forall i :: 0 <= i < k ==> pieces[i] != [])
      ensures Decode(t) == Body(pieces[..k], EncodeAll(pieces[k + 1..]) + FINAL + more)
    {
      CutAtEmpty(pieces, k);
      var left := EncodeAll(pieces[k + 1..]) + FINAL + more;
      assert t == (EncodeAll(pieces[..k]) + FINAL) + left;
      EncodedIsChunked(pieces[..k]);
      BodyIsDecoded(EncodeAll(pieces[..k]) + FINAL, pieces[..k], left);
    }
    FirstEmpty(pieces);
  }

  lemma CutAtEmpty(pieces: seq<text>, k: nat)
    requires k < |pieces| && pieces[k] == []
    ensures EncodeAll(pieces) == EncodeAll(pieces[..k]) + FINAL + EncodeAll(pieces[k + 1..])
  {
    hide Chunk;
    EmptyPieceEnds();
    assert pieces == pieces[..k] + pieces[k..];
    EncodeAllAppend(pieces[..k], pieces[k..]);
    assert pieces[k..][1..] == pieces[k + 1..];
    Assoc(EncodeAll(pieces[..k]), FINAL, EncodeAll(pieces[k + 1..]));
  }

  lemma {:induction false} FirstEmpty(pieces: seq<text>)
    ensures (exists i :: 0 <= i < |pieces| && pieces[i] == []) ==>
      exists k :: 0 <= k < |pieces| && pieces[k] == [] && forall i :: 0 <= i < k ==> pieces[i] != []
    decreases |pieces|
  {
    if i :| 0 <= i < |pieces| && pieces[i] == [] {
      var before := pieces[..i];
      FirstEmpty(before);
      if j :| 0 <= j < i && before[j] == [] {
        var k :| 0 <= k < |before| && before[k] == [] && forall i :: 0 <= i < k ==> before[i] != [];
        assert pieces[k] == [] && forall i :: 0 <= i < k ==> pieces[i] == before[i];
      } else {
        assert forall j :: 0 <= j < i ==> pieces[j] == before[j];
      }
    }
  }
}
