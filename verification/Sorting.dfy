/** The stable sort of JavaScript's `Array.prototype.sort`, for any total order on the elements. */
module Sorting {
  import opened Selection

  function Insert<T>(x: T, sorted: seq<T>, notAfter: (T, T) -> bool): seq<T> {
    if sorted == [] then [x]
    else if notAfter(x, sorted[0]) then [x] + sorted
    else [sorted[0]] + Insert(x, sorted[1..], notAfter)
  }

  function Sort<T>(items: seq<T>, notAfter: (T, T) -> bool): seq<T> {
    if items == [] then [] else Insert(items[0], Sort(items[1..], notAfter), notAfter)
  }

  ghost predicate Ascending<T>(items: seq<T>, notAfter: (T, T) -> bool) {
    forall i, j :: 0 <= i < j < |items| ==> notAfter(items[i], items[j])
  }

  function Matching<T>(items: seq<T>, wanted: T -> bool): seq<T> {
    if items == [] then []
    else (if wanted(items[0]) then [items[0]] else []) + Matching(items[1..], wanted)
  }

  lemma {:induction false} InsertPermutes<T>(x: T, sorted: seq<T>, notAfter: (T, T) -> bool)
    ensures multiset(Insert(x, sorted, notAfter)) == multiset([x] + sorted)
  {
    if sorted != [] && !notAfter(x, sorted[0]) {
      InsertPermutes(x, sorted[1..], notAfter);
      assert sorted == [sorted[0]] + sorted[1..];
    }
  }

  lemma {:induction false} InsertAscends<T(!new)>(x: T, sorted: seq<T>, notAfter: (T, T) -> bool)
    requires IsOrdering(notAfter) && Ascending(sorted, notAfter)
    ensures Ascending(Insert(x, sorted, notAfter), notAfter)
  {
    if sorted != [] && !notAfter(x, sorted[0]) {
      var rest := Insert(x, sorted[1..], notAfter);
      InsertAscends(x, sorted[1..], notAfter);
      InsertPermutes(x, sorted[1..], notAfter);
      PermutationKeepsElements(rest, [x] + sorted[1..]);
      forall i | 0 <= i < |rest| ensures notAfter(sorted[0], rest[i]) {
        assert rest[i] in rest;
        assert rest[i] == x || rest[i] in sorted[1..];
      }
    }
  }

  lemma {:induction false} InsertIsStable<T(!new)>(x: T, sorted: seq<T>, notAfter: (T, T) -> bool, wanted: T -> bool)
    requires forall a, b :: wanted(a) && wanted(b) ==> notAfter(a, b)
    ensures Matching(Insert(x, sorted, notAfter), wanted) == Matching([x] + sorted, wanted)
  {
    assert ([x] + sorted)[1..] == sorted;
    if sorted != [] && !notAfter(x, sorted[0]) {
      var rest := Insert(x, sorted[1..], notAfter);
      InsertIsStable(x, sorted[1..], notAfter, wanted);
      assert ([x] + sorted[1..])[1..] == sorted[1..];
      assert ([sorted[0]] + rest)[1..] == rest;
    }
  }

  /** Sorting permutes, ascends, and keeps elements that rank the same in the order they came in. */
  lemma {:induction false} SortIsStable<T(!new)>(items: seq<T>, notAfter: (T, T) -> bool, wanted: T -> bool)
    requires IsOrdering(notAfter)
    requires forall a, b :: wanted(a) && wanted(b) ==> notAfter(a, b)
    ensures multiset(Sort(items, notAfter)) == multiset(items)
    ensures Ascending(Sort(items, notAfter), notAfter)
    ensures Matching(Sort(items, notAfter), wanted) == Matching(items, wanted)
  {
    if items != [] {
      var rest := Sort(items[1..], notAfter);
      SortIsStable(items[1..], notAfter, wanted);
      InsertPermutes(items[0], rest, notAfter);
      InsertAscends(items[0], rest, notAfter);
      InsertIsStable(items[0], rest, notAfter, wanted);
      assert items == [items[0]] + items[1..];
      assert ([items[0]] + rest)[1..] == rest;
    }
  }

  /** Sorting permutes and ascends. */
  lemma SortSorts<T(!new)>(items: seq<T>, notAfter: (T, T) -> bool)
    requires IsOrdering(notAfter)
    ensures multiset(Sort(items, notAfter)) == multiset(items)
    ensures Ascending(Sort(items, notAfter), notAfter)
  {
    SortIsStable(items, notAfter, x => false);
  }

  ghost predicate Distinct<T(!new)>(items: seq<T>) {
    forall i, j :: 0 <= i < j < |items| ==> items[i] != items[j]
  }

  lemma {:induction false} DistinctOccurOnce<T(!new)>(items: seq<T>, x: T)
    requires Distinct(items)
    ensures multiset(items)[x] <= 1
  {
    if items != [] {
      var n := |items| - 1;
      assert items == items[..n] + [items[n]];
      DistinctOccurOnce(items[..n], x);
    }
  }

  lemma OccursTwice<T(!new)>(items: seq<T>, i: nat, j: nat)
    requires i < j < |items| && items[i] == items[j]
    ensures multiset(items)[items[i]] >= 2
  {
    assert items == items[..j] + items[j..];
    assert items[..j][i] == items[i] && items[j..][0] == items[i];
  }

  /** A permutation has the same elements, and they stay distinct. */
  lemma PermutationKeepsElements<T(!new)>(a: seq<T>, b: seq<T>)
    requires multiset(a) == multiset(b)
    ensures |a| == |b|
    ensures forall x :: x in a <==> x in b
    ensures Distinct(a) ==> Distinct(b)
  {
    assert |multiset(a)| == |multiset(b)|;
    forall x ensures x in a <==> x in b {
      assert x in a <==> x in multiset(a);
      assert x in b <==> x in multiset(b);
    }
    if Distinct(a) {
      forall i, j | 0 <= i < j < |b| ensures b[i] != b[j] {
        DistinctOccurOnce(a, b[i]);
        if b[i] == b[j] {
          OccursTwice(b, i, j);
        }
      }
    }
  }

  /** Distinct elements make the same multiset whatever order they stand in. */
  lemma SameDistinctElements<T(!new)>(a: seq<T>, b: seq<T>)
    requires Distinct(a) && Distinct(b)
    requires forall x :: x in a <==> x in b
    ensures multiset(a) == multiset(b)
  {
    forall x ensures multiset(a)[x] == multiset(b)[x] {
      DistinctOccurOnce(a, x);
      DistinctOccurOnce(b, x);
      assert x in a <==> x in multiset(a);
      assert x in b <==> x in multiset(b);
    }
  }

  lemma FirstsAgree<T(!new)>(a: seq<T>, b: seq<T>, notAfter: (T, T) -> bool)
    requires Ascending(a, notAfter) && Ascending(b, notAfter) && multiset(a) == multiset(b) && a != []
    requires forall x, y :: x in a && y in a && notAfter(x, y) && notAfter(y, x) ==> x == y
    ensures b != [] && a[0] == b[0]
  {
    PermutationKeepsElements(a, b);
    assert a[0] in b && b[0] in a;
    var i :| 0 <= i < |b| && b[i] == a[0];
    var j :| 0 <= j < |a| && a[j] == b[0];
    assert i > 0 ==> notAfter(b[0], b[i]);
    assert j > 0 ==> notAfter(a[0], a[j]);
  }

  lemma WithoutFirst<T>(a: seq<T>)
    requires a != []
    ensures multiset(a[1..]) == multiset(a) - multiset{a[0]}
  {
    assert a == [a[0]] + a[1..];
  }

  /** Where different elements rank differently, there is only one way to stand in order. */
  lemma {:induction false} AscendingIsUnique<T(!new)>(a: seq<T>, b: seq<T>, notAfter: (T, T) -> bool)
    requires Ascending(a, notAfter) && Ascending(b, notAfter) && multiset(a) == multiset(b)
    requires forall x, y :: x in a && y in a && notAfter(x, y) && notAfter(y, x) ==> x == y
    ensures a == b
  {
    if a == [] {
      assert |multiset(b)| == 0;
    } else {
      FirstsAgree(a, b, notAfter);
      WithoutFirst(a);
      WithoutFirst(b);
      AscendingIsUnique(a[1..], b[1..], notAfter);
      assert a == [a[0]] + a[1..] && b == [b[0]] + b[1..];
    }
  }
}
