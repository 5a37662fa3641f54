/** The iterator of include/beast/core/detail/buffer_cat.hpp: a position in two levels, in a tuple
    of buffer sequences, that stands for an index into their concatenation. */
module BufferCat {
  import opened Bytes

  /** Which sequence, and where in it. */
  datatype Position = Position(n: nat, pos: nat)

  /** The end is the only position that is not in front of an element. */
  predicate Canonical<T>(bs: seq<seq<T>>, p: Position) {
    p.n == |bs| || (p.n < |bs| && p.pos < |bs[p.n]|)
  }

  /** The index into the concatenation. */
  function Index<T>(bs: seq<seq<T>>, p: Position): nat
    requires p.n <= |bs|
  {
    |Concat(bs[..p.n])| + (if p.n == |bs| then 0 else p.pos)
  }

  /** Positions that do not differ in what counts: at the end the inner iterator does not exist. */
  predicate SamePosition<T>(bs: seq<seq<T>>, p: Position, q: Position) {
    p.n == q.n && (p.n < |bs| ==> p.pos == q.pos)
  }

  lemma ConcatNext<T>(bs: seq<seq<T>>, n: nat)
    requires n < |bs|
    ensures Concat(bs[..n + 1]) == Concat(bs[..n]) + bs[n]
  {
    assert bs[..n + 1][..n] == bs[..n];
  }

  lemma {:induction false} ConcatPrefix<T>(bs: seq<seq<T>>, n: nat)
    requires n <= |bs|
    ensures Concat(bs[..n]) <= Concat(bs)
    decreases |bs| - n
  {
    hide Concat;
    if n == |bs| {
      assert bs[..n] == bs;
    } else {
      ConcatNext(bs, n);
      ConcatPrefix(bs, n + 1);
    }
  }

  /** A canonical position is in front of the element that its index denotes. */
  lemma IndexDenotes<T>(bs: seq<seq<T>>, p: Position)
    requires Canonical(bs, p)
    ensures Index(bs, p) <= |Concat(bs)|
    ensures Index(bs, p) == |Concat(bs)| <==> p.n == |bs|
    ensures p.n < |bs| ==> Concat(bs)[Index(bs, p)] == bs[p.n][p.pos]
  {
    hide Concat;
    if p.n < |bs| {
      ConcatNext(bs, p.n);
      ConcatPrefix(bs, p.n + 1);
      var c := Concat(bs[..p.n + 1]);
      assert c[|Concat(bs[..p.n])| + p.pos] == bs[p.n][p.pos];
    } else {
      assert bs[..p.n] == bs;
    }
  }

  lemma {:induction false} ConcatShorter<T>(bs: seq<seq<T>>, m: nat, n: nat)
    requires m <= n <= |bs|
    ensures |Concat(bs[..m])| <= |Concat(bs[..n])|
  {
    hide Concat;
    ConcatPrefix(bs[..n], m);
    assert bs[..n][..m] == bs[..m];
  }

  /** Sequences before that of p lie wholly before its index. */
  lemma IndexOrder<T>(bs: seq<seq<T>>, p: Position, q: Position)
    requires Canonical(bs, p) && Canonical(bs, q) && p.n < q.n
    ensures Index(bs, p) < Index(bs, q)
  {
    hide Concat;
    ConcatNext(bs, p.n);
    ConcatShorter(bs, p.n + 1, q.n);
  }

  /** An index has one canonical position: ++ and -- undo each other, and equality of positions
      is equality of indices. */
  lemma IndexInjective<T>(bs: seq<seq<T>>, p: Position, q: Position)
    requires Canonical(bs, p) && Canonical(bs, q)
    ensures Index(bs, p) == Index(bs, q) <==> SamePosition(bs, p, q)
  {
    hide Concat;
    if p.n < q.n {
      IndexOrder(bs, p, q);
    } else if q.n < p.n {
      IndexOrder(bs, q, p);
    }
  }

  /** Every index has a canonical position. */
  lemma {:induction false} IndexOnto<T>(bs: seq<seq<T>>, i: nat) returns (p: Position)
    requires i <= |Concat(bs)|
    ensures Canonical(bs, p) && Index(bs, p) == i
  {
    if i == |Concat(bs)| {
      assert bs[..|bs|] == bs;
      return Position(|bs|, 0);
    }
    var n := |bs| - 1;
    var front := bs[..n];
    if i < |Concat(front)| {
      p := IndexOnto(front, i);
      IndexDenotes(front, p);
      assert bs[..p.n] == front[..p.n];
    } else {
      return Position(n, i - |Concat(front)|);
    }
  }

  /** Stepping from i to the next sequence that is not empty. */
  lemma SkipEmpty<T>(bs: seq<seq<T>>, i: nat)
    requires i < |bs| && bs[i] == []
    ensures |Concat(bs[..i + 1])| == |Concat(bs[..i])|
  {
    ConcatNext(bs, i);
  }

  class BufferCatHelper<T> {
    const bs: seq<seq<T>>

    constructor (bs: seq<seq<T>>)
      ensures this.bs == bs
    {
      this.bs := bs;
    }

    method Begin() returns (it: ConstIterator<T>)
      requires |bs| > 0
      ensures fresh(it) && it.Valid() && it.cat == this && it.At() == 0
    {
      it := new ConstIterator.Of(this, false);
    }

    method End() returns (it: ConstIterator<T>)
      requires |bs| > 0
      ensures fresh(it) && it.Valid() && it.cat == this && it.At() == |Concat(bs)|
    {
      it := new ConstIterator.Of(this, true);
    }
  }

  class ConstIterator<T> {
    /** sizeof...(Bs) */
    const count: nat
    var cat: BufferCatHelper?<T>
    var n: nat
    var pos: nat

    ghost function P(): Position
      reads this
    {
      Position(n, pos)
    }

    ghost predicate Valid()
      reads this
    {
      && count > 0 && (cat == null ==> n == count)
      && (cat != null ==> |cat.bs| == count && Canonical(cat.bs, P()))
    }

    ghost function At(): nat
      requires Valid() && cat != null
      reads this
    {
      Index(cat.bs, P())
    }

    constructor Default(count: nat)
      requires count > 0
      ensures Valid() && cat == null
    {
      this.count := count;
      cat, n, pos := null, count, 0;
    }

    constructor Of(c: BufferCatHelper<T>, atEnd: bool)
      requires |c.bs| > 0
      ensures Valid() && cat == c && At() == if atEnd then |Concat(c.bs)| else 0
    {
      count := |c.bs|;
      cat, n, pos := c, |c.bs|, 0;
      new;
      assert c.bs[..count] == c.bs && c.bs[..0] == [];
      if !atEnd {
        Construct(0);
      }
    }

    /** construct(C<i>) */
    method Construct(i: nat)
      requires cat != null && count > 0 && |cat.bs| == count && i <= count
      modifies `n, `pos
      ensures Valid() && At() == |Concat(cat.bs[..i])|
      decreases count - i
    {
      hide Concat;
      if i == count {
        n := count;
      } else if 0 != |cat.bs[i]| {
        n, pos := i, 0;
      } else {
        SkipEmpty(cat.bs, i);
        Construct(i + 1);
      }
    }

    /** operator= */
    method Assign(other: ConstIterator<T>)
      requires Valid() && other.Valid() && count == other.count
      modifies this
      ensures Valid() && cat == other.cat && (cat != null ==> At() == other.At())
    {
      if other == this {
        return;
      }
      n := other.n;
      cat := other.cat;
      if n < count {
        pos := other.pos;
      }
    }

    /** equal(C<i>) */
    predicate EqualFrom(i: nat, other: ConstIterator<T>)
      requires i <= count
      reads this, other
      decreases count - i
    {
      if i == count then true
      else if n == i then pos == other.pos
      else EqualFrom(i + 1, other)
    }

    lemma EqualFromIs(i: nat, other: ConstIterator<T>)
      requires i <= n <= count
      ensures EqualFrom(i, other) <==> n == count || pos == other.pos
      decreases count - i
    {
      if i < count && n != i {
        EqualFromIs(i + 1, other);
      }
    }

    /** operator==: equal iterators are those of one buffer sequence at one index. */
    method Equals(other: ConstIterator<T>) returns (r: bool)
      requires Valid() && other.Valid() && count == other.count
      ensures r <==> cat == other.cat && (cat != null ==> At() == other.At())
    {
      hide EqualFrom;
      if cat != other.cat || n != other.n {
        if cat != null && cat == other.cat {
          IndexInjective(cat.bs, P(), other.P());
        }
        return false;
      }
      r := EqualFrom(0, other);
      EqualFromIs(0, other);
      if cat != null {
        IndexInjective(cat.bs, P(), other.P());
      }
    }

    /** dereference(C<i>) */
    method DereferenceFrom(i: nat) returns (x: seq<T>)
      requires Valid() && i <= n
      ensures n == count ==> x == []
      ensures n < count ==> x == [cat.bs[n][pos]]
      decreases count - i
    {
      if i == count {
        return [];
      }
      if n == i {
        return [cat.bs[i][pos]];
      }
      x := DereferenceFrom(i + 1);
    }

    /** operator*: the element at the index, as a sequence of one; none where the source throws
        std::logic_error. */
    method Dereference() returns (x: seq<T>)
      requires Valid()
      ensures cat == null ==> x == []
      ensures cat != null ==> x == if At() < |Concat(cat.bs)| then [Concat(cat.bs)[At()]] else []
    {
      x := DereferenceFrom(0);
      if cat != null {
        IndexDenotes(cat.bs, P());
      }
    }

    /** increment(C<i>) */
    method IncrementFrom(i: nat) returns (ok: bool)
      requires Valid() && i <= n
      modifies `n, `pos
      ensures Valid() && (ok <==> old(n) < count)
      ensures ok ==> At() == old(At()) + 1
      ensures !ok ==> n == old(n) && pos == old(pos)
      decreases count - i
    {
      hide Concat;
      if i == count {
        return false;
      }
      if n == i {
        pos := pos + 1;
        ConcatNext(cat.bs, i);
        if pos != |cat.bs[i]| {
          return true;
        }
        Construct(i + 1);
        return true;
      }
      ok := IncrementFrom(i + 1);
    }

    /** operator++: one index on; where the source throws the iterator is at the end and stays. */
    method Increment() returns (ok: bool)
      requires Valid()
      modifies `n, `pos
      ensures Valid() && (ok <==> cat != null && old(At()) < |Concat(cat.bs)|)
      ensures ok ==> At() == old(At()) + 1
      ensures !ok ==> n == old(n) && pos == old(pos)
    {
      hide Concat;
      if cat != null {
        IndexDenotes(cat.bs, P());
      }
      ok := IncrementFrom(0);
    }

    /** decrement(C<i>), reached with the inner iterator anywhere in its sequence, the end
        included. */
    method DecrementFrom(i: nat) returns (ok: bool)
      requires cat != null && count > 0 && |cat.bs| == count
      requires n <= i <= count && (n < count ==> pos <= |cat.bs[n]|)
      modifies `n, `pos
      ensures ok <==> old(Index(cat.bs, P())) > 0
      ensures ok ==> Valid() && At() == old(Index(cat.bs, P())) - 1
      ensures !ok ==> n == 0 && pos == 0
      decreases i
    {
      hide Concat;
      if i == count {
        if n == i {
          ToEndOf(cat.bs, n);
          n := n - 1;
          pos := |cat.bs[n]|;
        }
        ok := DecrementFrom(i - 1);
      } else if i == 0 {
        FromZero(cat.bs);
        if pos != 0 {
          pos := pos - 1;
          return true;
        }
        return false;
      } else {
        if n == i {
          if pos != 0 {
            pos := pos - 1;
            return true;
          }
          ToEndOf(cat.bs, n);
          n := n - 1;
          pos := |cat.bs[n]|;
        }
        ok := DecrementFrom(i - 1);
      }
    }

    /** operator--: one index back.  Where the source throws, the iterator was at index 0 and has
        been moved to the front of the first sequence: it is still a position exactly when that
        sequence is not empty. */
    method Decrement() returns (ok: bool)
      requires Valid() && cat != null
      modifies `n, `pos
      ensures ok <==> old(At()) > 0
      ensures ok ==> Valid() && At() == old(At()) - 1
      ensures !ok ==> n == 0 && pos == 0 && (Valid() <==> cat.bs[0] != [])
      ensures !ok && Valid() ==> n == old(n) && pos == old(pos)
    {
      hide Concat;
      if cat.bs[0] != [] {
        FirstPosition(cat.bs, P());
      }
      ok := DecrementFrom(count);
    }
  }

  /** The front of a sequence has the index of the end of the one before. */
  lemma ToEndOf<T>(bs: seq<seq<T>>, n: nat)
    requires 0 < n <= |bs|
    ensures |Concat(bs[..n])| == |Concat(bs[..n - 1])| + |bs[n - 1]|
  {
    ConcatNext(bs, n - 1);
  }

  lemma FromZero<T>(bs: seq<seq<T>>)
    ensures Concat(bs[..0]) == []
  {
  }

  lemma FirstPosition<T>(bs: seq<seq<T>>, p: Position)
    requires Canonical(bs, p) && bs != [] && bs[0] != []
    ensures Index(bs, p) == 0 ==> p == Position(0, 0)
  {
    hide Concat;
    FromZero(bs);
    IndexInjective(bs, p, Position(0, 0));
  }

  /** Walking from begin() to end() visits the elements of all the sequences in order. */
  method Walk<T>(c: BufferCatHelper<T>) returns (s: seq<T>)
    requires |c.bs| > 0
    ensures s == Concat(c.bs)
  {
    hide Concat, Index, Canonical;
    ghost var all := Concat(c.bs);
    s := [];
    var it := c.Begin();
    var end := c.End();
    var done := it.Equals(end);
    while !done
      invariant it.Valid() && end.Valid() && it.cat == c == end.cat && it.count == end.count
      invariant it != end && end.At() == |all| && it.At() <= |all|
      invariant done <==> it.At() == |all|
      invariant s == all[..it.At()]
      decreases |all| - it.At()
    {
      TakeOne(all, it.At());
      var x := it.Dereference();
      s := s + x;
      var _ := it.Increment();
      done := it.Equals(end);
    }
  }

  function Reversed<T>(s: seq<T>): (r: seq<T>)
    ensures |r| == |s| && forall i :: 0 <= i < |s| ==> r[i] == s[|s| - 1 - i]
  {
    seq(|s|, i requires 0 <= i < |s| => s[|s| - 1 - i])
  }

  lemma ReversedOne<T>(s: seq<T>, i: nat)
    requires i < |s|
    ensures Reversed(s[i..]) == Reversed(s[i + 1..]) + [s[i]]
  {
  }

  /** Walking back from end() visits them in the opposite order. */
  method WalkBack<T>(c: BufferCatHelper<T>) returns (s: seq<T>)
    requires |c.bs| > 0
    ensures s == Reversed(Concat(c.bs))
  {
    hide Concat, Index, Canonical, Reversed;
    ghost var all := Concat(c.bs);
    s := [];
    var it := c.End();
    var begin := c.Begin();
    var done := it.Equals(begin);
    while !done
      invariant it.Valid() && begin.Valid() && it.cat == c == begin.cat && it.count == begin.count
      invariant it != begin && begin.At() == 0 && it.At() <= |all|
      invariant done <==> it.At() == 0
      invariant s == Reversed(all[it.At()..])
      decreases it.At()
    {
      ReversedOne(all, it.At() - 1);
      var _ := it.Decrement();
      var x := it.Dereference();
      s := s + x;
      done := it.Equals(begin);
    }
    assert all[0..] == all;
  }
}
