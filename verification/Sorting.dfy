/** Sorting by insertion, by any total order. */
module Sorting {

  ghost predicate TotalOrder<T(!new)>(leq: (T, T) -> bool) {
    && (forall x, y :: leq(x, y) || leq(y, x))
    && (forall x, y :: leq(x, y) && leq(y, x) ==> x == y)
    && (forall x, y, z :: leq(x, y) && leq(y, z) ==> leq(x, z))
  }

  ghost predicate Ascending<T>(s: seq<T>, leq: (T, T) -> bool) {
    forall i, j :: 0 <= i < j < |s| ==> leq(s[i], s[j])
  }

  function Insert<T>(x: T, s: seq<T>, leq: (T, T) -> bool): (r: seq<T>)
    ensures |r| == |s| + 1
  {
    if s == [] || leq(x, s[0]) then [x] + s else [s[0]] + Insert(x, s[1..], leq)
  }

  function Sorted<T>(s: seq<T>, leq: (T, T) -> bool): (r: seq<T>)
    ensures |r| == |s|
  {
    if s == [] then [] else Insert(s[0], Sorted(s[1..], leq), leq)
  }

  lemma {:induction false} InsertMembers<T>(x: T, s: seq<T>, leq: (T, T) -> bool)
    ensures multiset(Insert(x, s, leq)) == multiset(s) + multiset{x}
    ensures forall y :: y in Insert(x, s, leq) ==> y == x || y in s
  {
    if s != [] && !leq(x, s[0]) {
      InsertMembers(x, s[1..], leq);
      assert s == [s[0]] + s[1..];
    }
  }

  lemma ConsAscends<T>(h: T, rest: seq<T>, leq: (T, T) -> bool)
    requires Ascending(rest, leq) && forall y :: y in rest ==> leq(h, y)
    ensures Ascending([h] + rest, leq)
  {
    var s := [h] + rest;
    assert forall j :: 1 <= j < |s| ==> s[j] == rest[j - 1] && s[j] in rest;
  }

  lemma Tail<T(!new)>(s: seq<T>, leq: (T, T) -> bool)
    requires TotalOrder(leq) && Ascending(s, leq) && s != []
    ensures Ascending(s[1..], leq) && forall y :: y in s ==> leq(s[0], y)
  {
    assert leq(s[0], s[0]);
  }

  lemma AllAbove<T(!new)>(x: T, s: seq<T>, leq: (T, T) -> bool)
    requires TotalOrder(leq) && s != [] && leq(x, s[0]) && forall y :: y in s ==> leq(s[0], y)
    ensures forall y :: y in s ==> leq(x, y)
  {
  }

  lemma {:induction false} InsertKeeps<T(!new)>(x: T, s: seq<T>, leq: (T, T) -> bool)
    requires TotalOrder(leq) && Ascending(s, leq)
    ensures Ascending(Insert(x, s, leq), leq) && multiset(Insert(x, s, leq)) == multiset(s) + multiset{x}
  {
    InsertMembers(x, s, leq);
    if s == [] {
      ConsAscends(x, s, leq);
    } else {
      hide Ascending;
      Tail(s, leq);
      if leq(x, s[0]) {
        AllAbove(x, s, leq);
        ConsAscends(x, s, leq);
      } else {
        InsertKeeps(x, s[1..], leq);
        InsertMembers(x, s[1..], leq);
        assert forall y :: y in s[1..] ==> y in s;
        ConsAscends(s[0], Insert(x, s[1..], leq), leq);
      }
    }
  }

  lemma {:induction false} SortedKeeps<T(!new)>(s: seq<T>, leq: (T, T) -> bool)
    requires TotalOrder(leq)
    ensures Ascending(Sorted(s, leq), leq) && multiset(Sorted(s, leq)) == multiset(s)
  {
    if s != [] {
      SortedKeeps(s[1..], leq);
      InsertKeeps(s[0], Sorted(s[1..], leq), leq);
      assert s == [s[0]] + s[1..];
    }
  }

  /** Ascending sequences with the same elements are the same. */
  lemma {:induction false} AscendingUnique<T(!new)>(a: seq<T>, b: seq<T>, leq: (T, T) -> bool)
    requires TotalOrder(leq) && Ascending(a, leq) && Ascending(b, leq) && multiset(a) == multiset(b)
    ensures a == b
  {
    assert |a| == |multiset(a)| == |multiset(b)| == |b|;
    if a != [] {
      SameLeast(a, b, leq);
      assert a == [a[0]] + a[1..] && b == [b[0]] + b[1..];
      assert multiset(a[1..]) == multiset(a) - multiset{a[0]};
      assert multiset(b[1..]) == multiset(b) - multiset{b[0]};
      Tail(a, leq);
      Tail(b, leq);
      AscendingUnique(a[1..], b[1..], leq);
    }
  }

  lemma SameLeast<T(!new)>(a: seq<T>, b: seq<T>, leq: (T, T) -> bool)
    requires TotalOrder(leq) && Ascending(a, leq) && Ascending(b, leq) && multiset(a) == multiset(b) && a != []
    requires b != []
    ensures a[0] == b[0]
  {
    assert a[0] in multiset(b) && b[0] in multiset(a);
    Tail(a, leq);
    Tail(b, leq);
    assert a[0] in b && b[0] in a;
  }

  /** Sorting forgets the order of its input. */
  lemma SortedOrderFree<T(!new)>(a: seq<T>, b: seq<T>, leq: (T, T) -> bool)
    requires TotalOrder(leq) && multiset(a) == multiset(b)
    ensures Sorted(a, leq) == Sorted(b, leq)
  {
    SortedKeeps(a, leq);
    SortedKeeps(b, leq);
    AscendingUnique(Sorted(a, leq), Sorted(b, leq), leq);
  }
}
