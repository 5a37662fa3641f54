/** The fixed-size DynamicBuffer of include/beast/core/static_streambuf.hpp: one block of memory
    whose readable part is in_..out_ and whose prepared part is out_..last_. */
module StaticStreambuf {
  import opened Bytes
  import opened MaskInPlace

  datatype Option<+T> = None | Some(value: T)

  lemma Slices(mem: array<u8>, i: nat, n: nat, o: nat)
    requires i + n <= o <= mem.Length
    ensures mem[i..o][..n] == mem[i..i + n] && mem[i..o][n..] == mem[i + n..o]
  {
  }

  lemma Joined(mem: array<u8>, i: nat, m: nat, o: nat)
    requires i <= m <= o <= mem.Length
    ensures mem[i..o] == mem[i..m] + mem[m..o]
  {
  }

  class Streambuf {
    const mem: array<u8>
    var inp: nat
    var out: nat
    var last: nat

    ghost predicate Valid()
      reads this
    {
      inp <= out <= last <= mem.Length
    }

    /** The input sequence. */
    ghost function Data(): seq<u8>
      requires Valid()
      reads this, mem
    {
      mem[inp..out]
    }

    /** What prepare() can still give. */
    ghost function Room(): nat
      requires Valid()
      reads this
    {
      mem.Length - out
    }

    constructor (n: nat)
      ensures Valid() && Data() == [] && Room() == n && fresh(mem)
    {
      mem := new u8[n];
      inp, out, last := 0, 0, 0;
    }

    /** size() */
    function Size(): (n: nat)
      requires Valid()
      reads this, mem
      ensures n == |Data()|
    {
      out - inp
    }

    /** prepare(): None where the source throws std::length_error. */
    method Prepare(n: nat) returns (r: Option<MutableBuffer>)
      requires Valid()
      modifies this`last
      ensures Valid() && Data() == old(Data()) && Room() == old(Room())
      ensures r.Some? <==> n <= Room()
      ensures r.Some? ==> r.value == MutableBuffer(mem, out, n) && last == out + n
    {
      if n > mem.Length - out {
        return None;
      }
      last := out + n;
      return Some(MutableBuffer(mem, out, n));
    }

    /** commit() */
    method Commit(n: nat)
      requires Valid()
      modifies this`out
      ensures Valid() && out == old(out) + (if n < old(last - out) then n else old(last - out))
      ensures Data() == old(Data()) + mem[old(out)..out]
    {
      out := out + (if n < last - out then n else last - out);
      Joined(mem, inp, old(out), out);
    }

    /** consume() */
    method Consume(n: nat)
      requires Valid()
      modifies this`inp
      ensures Valid() && Room() == old(Room())
      ensures inp == old(inp) + (if n < old(out - inp) then n else old(out - inp))
    {
      inp := inp + (if n < out - inp then n else out - inp);
    }

    /** buffer_copy(buffer(b), data()) into n octets, then consume() what was copied. */
    method Take(n: nat) returns (b: seq<u8>)
      requires Valid() && n <= |Data()|
      modifies this`inp
      ensures Valid() && b == old(Data())[..n] && Data() == old(Data())[n..] && Room() == old(Room())
    {
      b := mem[inp..inp + n];
      Consume(n);
      Slices(mem, inp - n, n, out);
    }

    /** buffer_copy() of b to the prepared octets. */
    method Fill(b: seq<u8>)
      requires Valid() && out + |b| == last
      modifies mem
      ensures mem[out..last] == b && mem[inp..out] == old(mem[inp..out])
    {
      forall k | 0 <= k < |b| {
        mem[out + k] := b[k];
      }
    }

    /** prepare(|b|), copy b there, commit(|b|): false where prepare() throws. */
    method Put(b: seq<u8>) returns (ok: bool)
      requires Valid()
      modifies this`last, this`out, mem
      ensures Valid() && (ok <==> |b| <= old(Room()))
      ensures Data() == if ok then old(Data()) + b else old(Data())
      ensures Room() == if ok then old(Room()) - |b| else old(Room())
    {
      var d := Prepare(|b|);
      if d == None {
        return false;
      }
      Fill(b);
      Commit(|b|);
      return true;
    }
  }

  /** Octets on their way, as a buffer to read from. */
  method OnTheWire(octets: seq<u8>) returns (db: Streambuf)
    ensures fresh(db) && fresh(db.mem) && db.Valid() && db.Data() == octets
  {
    db := new Streambuf(|octets|);
    var ok := db.Put(octets);
    assert [] + octets == octets;
  }
}
