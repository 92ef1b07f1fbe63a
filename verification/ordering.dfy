/** Sorting by a qsort-style three-way comparator. qsort is not stable, so the order it
    leaves among equal elements is unspecified; the model fixes one such order by using a
    stable insertion sort, which is one of the orders qsort may produce. */
module Ordering {

  /** The comparator orders its arguments the way qsort needs: any two elements are
      comparable and "not after" is transitive. */
  ghost predicate TotalPreorder<T(!new)>(cmp: (T, T) -> int) {
    && (forall a, b :: cmp(a, b) <= 0 || cmp(b, a) <= 0)
    && (forall a, b, c :: cmp(a, b) <= 0 && cmp(b, c) <= 0 ==> cmp(a, c) <= 0)
  }

  ghost predicate SortedBy<T>(cmp: (T, T) -> int, s: seq<T>) {
    forall i, j :: 0 <= i < j < |s| ==> cmp(s[i], s[j]) <= 0
  }

  /** Inserts x in front of the first element it is not after. */
  function Insert<T>(x: T, s: seq<T>, cmp: (T, T) -> int): (r: seq<T>)
    ensures multiset(r) == multiset(s) + multiset{x}
  {
    if |s| == 0 then [x]
    else if cmp(x, s[0]) <= 0 then [x] + s
    else
      assert s == [s[0]] + s[1..];
      [s[0]] + Insert(x, s[1..], cmp)
  }

  lemma {:induction false} InsertMembers<T>(x: T, s: seq<T>, cmp: (T, T) -> int)
    ensures forall y :: y in Insert(x, s, cmp) <==> y == x || y in s
  {
    if |s| > 0 && cmp(x, s[0]) > 0 {
      InsertMembers(x, s[1..], cmp);
      assert s == [s[0]] + s[1..];
    }
  }

  lemma PrependSorted<T>(h: T, rest: seq<T>, cmp: (T, T) -> int)
    requires SortedBy(cmp, rest)
    requires forall y :: y in rest ==> cmp(h, y) <= 0
    ensures SortedBy(cmp, [h] + rest)
  {
    var r := [h] + rest;
    forall i, j | 0 <= i < j < |r|
      ensures cmp(r[i], r[j]) <= 0
    {
      if i == 0 {
        assert r[j] == rest[j - 1];
      } else {
        assert r[i] == rest[i - 1] && r[j] == rest[j - 1];
      }
    }
  }

  lemma {:induction false} InsertSorted<T(!new)>(x: T, s: seq<T>, cmp: (T, T) -> int)
    requires TotalPreorder(cmp)
    requires SortedBy(cmp, s)
    ensures SortedBy(cmp, Insert(x, s, cmp))
  {
    if |s| == 0 {
    } else if cmp(x, s[0]) <= 0 {
      InsertFront(x, s, cmp);
    } else {
      InsertSorted(x, s[1..], cmp);
      InsertBehind(x, s, cmp);
    }
  }

  /** x goes in front: it is not after s[0], hence not after any element. */
  lemma InsertFront<T(!new)>(x: T, s: seq<T>, cmp: (T, T) -> int)
    requires TotalPreorder(cmp) && SortedBy(cmp, s)
    requires |s| > 0 && cmp(x, s[0]) <= 0
    ensures SortedBy(cmp, [x] + s)
  {
    forall y | y in s
      ensures cmp(x, y) <= 0
    {
      var k :| 0 <= k < |s| && s[k] == y;
      assert cmp(s[0], s[k]) <= 0 || k == 0;
    }
    PrependSorted(x, s, cmp);
  }

  /** x goes behind s[0], which is then not after anything in the rest. */
  lemma InsertBehind<T(!new)>(x: T, s: seq<T>, cmp: (T, T) -> int)
    requires TotalPreorder(cmp) && SortedBy(cmp, s)
    requires |s| > 0 && cmp(x, s[0]) > 0
    requires SortedBy(cmp, Insert(x, s[1..], cmp))
    ensures SortedBy(cmp, [s[0]] + Insert(x, s[1..], cmp))
  {
    InsertMembers(x, s[1..], cmp);
    var rest := Insert(x, s[1..], cmp);
    assert cmp(s[0], x) <= 0;
    forall y | y in rest
      ensures cmp(s[0], y) <= 0
    {
      if y != x {
        var k :| 1 <= k < |s| && s[k] == y;
      }
    }
    PrependSorted(s[0], rest, cmp);
  }

  /** The entries in comparator order. */
  function SortBy<T>(s: seq<T>, cmp: (T, T) -> int): (r: seq<T>)
    ensures multiset(r) == multiset(s)
    ensures |r| == |s|
  {
    if |s| == 0 then []
    else
      assert s == [s[0]] + s[1..];
      Insert(s[0], SortBy(s[1..], cmp), cmp)
  }

  lemma {:induction false} SortBySorted<T(!new)>(s: seq<T>, cmp: (T, T) -> int)
    requires TotalPreorder(cmp)
    ensures SortedBy(cmp, SortBy(s, cmp))
  {
    if |s| > 0 {
      SortBySorted(s[1..], cmp);
      InsertSorted(s[0], SortBy(s[1..], cmp), cmp);
    }
  }
}
