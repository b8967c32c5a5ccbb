/** Python's `sorted` over a total order, as a functional insertion sort, with
    the facts the snapshots rely on: the result is an ordered permutation of
    the input, and an ordered permutation is unique. */
module Sorting {

  /** `le` is a total order: reflexive, antisymmetric, transitive and total. */
  ghost predicate TotalOrder<T(!new)>(le: (T, T) -> bool) {
    && (forall a :: le(a, a))
    && (forall a, b :: le(a, b) && le(b, a) ==> a == b)
    && (forall a, b, c :: le(a, b) && le(b, c) ==> le(a, c))
    && (forall a, b :: le(a, b) || le(b, a))
  }

  ghost predicate SortedBy<T>(le: (T, T) -> bool, s: seq<T>) {
    forall i, j :: 0 <= i < j < |s| ==> le(s[i], s[j])
  }

  /** Inserts `x` into the ordered sequence `s`, before the first element it
      is not above. */
  function Insert<T(!new)>(le: (T, T) -> bool, x: T, s: seq<T>): (r: seq<T>)
    requires TotalOrder(le)
    requires SortedBy(le, s)
    ensures SortedBy(le, r)
    ensures multiset(r) == multiset(s) + multiset{x}
  {
    if s == [] then [x]
    else if le(x, s[0]) then
      assert forall j :: 0 <= j < |s| ==> le(x, s[j]);
      [x] + s
    else
      var tail := Insert(le, x, s[1..]);
      assert s == [s[0]] + s[1..];
      InsertAbove(le, x, s);
      assert forall j :: 0 <= j < |tail| ==> tail[j] in multiset(tail);
      [s[0]] + tail
  }

  /** When `x` goes after the head of `s`, the head is below everything
      the rest of the insertion holds. */
  lemma InsertAbove<T(!new)>(le: (T, T) -> bool, x: T, s: seq<T>)
    requires TotalOrder(le)
    requires SortedBy(le, s)
    requires s != [] && !le(x, s[0])
    ensures forall z :: z in multiset(s[1..]) + multiset{x} ==> le(s[0], z)
  {
    forall z | z in multiset(s[1..]) + multiset{x}
      ensures le(s[0], z)
    {
      if z != x {
        var k :| 0 <= k < |s[1..]| && s[1..][k] == z;
        assert s[k + 1] == z;
      }
    }
  }

  /** `sorted(s)` under the order `le`. */
  function Sort<T(!new)>(le: (T, T) -> bool, s: seq<T>): (r: seq<T>)
    requires TotalOrder(le)
    ensures SortedBy(le, r)
    ensures multiset(r) == multiset(s)
  {
    if s == [] then []
    else
      assert s == [s[0]] + s[1..];
      Insert(le, s[0], Sort(le, s[1..]))
  }

  /** The first element of an ordered sequence is below every element. */
  lemma HeadIsLeast<T(!new)>(le: (T, T) -> bool, s: seq<T>, x: T)
    requires TotalOrder(le)
    requires SortedBy(le, s)
    requires x in multiset(s)
    ensures le(s[0], x)
  {
    var j :| 0 <= j < |s| && s[j] == x;
    if j > 0 {
      assert le(s[0], s[j]);
    }
  }

  /** Two ordered sequences holding the same elements are equal: the result
      of a sort depends only on the multiset of its input. */
  lemma {:induction false} SortedUnique<T(!new)>(le: (T, T) -> bool, a: seq<T>, b: seq<T>)
    requires TotalOrder(le)
    requires SortedBy(le, a) && SortedBy(le, b)
    requires multiset(a) == multiset(b)
    ensures a == b
  {
    assert |a| == |multiset(a)| == |multiset(b)| == |b|;
    if a != [] {
      assert a[0] in multiset(a);
      assert b[0] in multiset(b);
      HeadIsLeast(le, b, a[0]);
      HeadIsLeast(le, a, b[0]);
      assert a[0] == b[0];
      assert a == [a[0]] + a[1..];
      assert b == [b[0]] + b[1..];
      assert multiset(a) == multiset{a[0]} + multiset(a[1..]);
      assert multiset(b) == multiset{b[0]} + multiset(b[1..]);
      assert multiset(a[1..]) == multiset(a) - multiset{a[0]};
      assert multiset(b[1..]) == multiset(b) - multiset{b[0]};
      SortedUnique(le, a[1..], b[1..]);
    }
  }

  /** Applies `f` to every element, keeping the order (Python's `zip(*...)`
      projections and list comprehensions). */
  function MapSeq<A, B>(f: A -> B, s: seq<A>): (r: seq<B>)
    ensures |r| == |s|
    ensures forall i :: 0 <= i < |s| ==> r[i] == f(s[i])
  {
    seq(|s|, i requires 0 <= i < |s| => f(s[i]))
  }

  /** Removing the element at `j` removes one occurrence of it. */
  lemma RemoveAt<A>(b: seq<A>, j: nat)
    requires j < |b|
    ensures multiset(b[..j] + b[j + 1..]) == multiset(b) - multiset{b[j]}
  {
    assert b == b[..j] + [b[j]] + b[j + 1..];
  }

  lemma MapSeqRemoveAt<A, B>(f: A -> B, b: seq<A>, j: nat)
    requires j < |b|
    ensures multiset(MapSeq(f, b)) == multiset(MapSeq(f, b[..j] + b[j + 1..])) + multiset{f(b[j])}
  {
    var fb := MapSeq(f, b);
    assert fb == fb[..j] + [fb[j]] + fb[j + 1..];
    assert MapSeq(f, b[..j] + b[j + 1..]) == fb[..j] + fb[j + 1..];
  }

  /** Permuting the input permutes the mapped sequence. */
  lemma {:induction false} MapSeqPermutation<A, B>(f: A -> B, a: seq<A>, b: seq<A>)
    requires multiset(a) == multiset(b)
    ensures multiset(MapSeq(f, a)) == multiset(MapSeq(f, b))
    decreases |a|
  {
    assert |a| == |multiset(a)| == |multiset(b)| == |b|;
    if a != [] {
      assert a[0] in multiset(b);
      var j :| 0 <= j < |b| && b[j] == a[0];
      var rest := b[..j] + b[j + 1..];
      RemoveAt(b, j);
      assert a == [a[0]] + a[1..];
      assert multiset(a[1..]) == multiset(rest);
      MapSeqPermutation(f, a[1..], rest);
      calc {
        multiset(MapSeq(f, a));
        { assert a[..0] + a[1..] == a[1..]; MapSeqRemoveAt(f, a, 0); }
        multiset(MapSeq(f, a[1..])) + multiset{f(a[0])};
        multiset(MapSeq(f, rest)) + multiset{f(b[j])};
        { MapSeqRemoveAt(f, b, j); }
        multiset(MapSeq(f, b));
      }
    }
  }
}
