/** `ORDER BY key ASC` as a stable insertion sort on an integer key; `DESC` sorts on the negated key. */
module Ordering {

  ghost predicate Ascending<T>(xs: seq<T>, key: T -> int)
  {
    forall i, j :: 0 <= i < j < |xs| ==> key(xs[i]) <= key(xs[j])
  }

  ghost predicate StrictlyAscending<T>(xs: seq<T>, key: T -> int)
  {
    forall i, j :: 0 <= i < j < |xs| ==> key(xs[i]) < key(xs[j])
  }

  ghost predicate StrictlyDescending<T>(xs: seq<T>, key: T -> int)
  {
    forall i, j :: 0 <= i < j < |xs| ==> key(xs[i]) > key(xs[j])
  }

  function Insert<T(==)>(x: T, ys: seq<T>, key: T -> int): (r: seq<T>)
    requires Ascending(ys, key)
    ensures Ascending(r, key)
    ensures multiset(r) == multiset(ys) + multiset{x}
    ensures |r| == |ys| + 1
    ensures r[0] == x || (|ys| > 0 && r[0] == ys[0])
  {
    if ys == [] || key(x) <= key(ys[0]) then [x] + ys
    else
      assert ys == [ys[0]] + ys[1..];
      [ys[0]] + Insert(x, ys[1..], key)
  }

  /** The rows sorted by ascending key: a permutation of the input in ascending order. */
  function SortBy<T(==)>(xs: seq<T>, key: T -> int): (r: seq<T>)
    ensures Ascending(r, key)
    ensures multiset(r) == multiset(xs)
    ensures |r| == |xs|
  {
    if xs == [] then []
    else
      assert xs == [xs[0]] + xs[1..];
      Insert(xs[0], SortBy(xs[1..], key), key)
  }

  /** Sorting keeps exactly the input rows: each output row is an input row and each input row is output. */
  lemma SortByMembers<T>(xs: seq<T>, key: T -> int)
    ensures forall i :: 0 <= i < |SortBy(xs, key)| ==> SortBy(xs, key)[i] in xs
    ensures forall x :: x in xs ==> x in SortBy(xs, key)
  {
    var r := SortBy(xs, key);
    forall i | 0 <= i < |r| ensures r[i] in xs {
      assert r[i] in multiset(r);
    }
    forall x | x in xs ensures x in r {
      assert x in multiset(xs);
    }
  }

  function Reverse<T>(xs: seq<T>): (r: seq<T>)
    ensures |r| == |xs|
    ensures forall i :: 0 <= i < |xs| ==> r[i] == xs[|xs| - 1 - i]
  {
    if xs == [] then [] else Reverse(xs[1..]) + [xs[0]]
  }

  lemma {:induction false} InsertLargest<T>(x: T, ys: seq<T>, key: T -> int)
    requires Ascending(ys, key)
    requires forall i :: 0 <= i < |ys| ==> key(ys[i]) < key(x)
    ensures Insert(x, ys, key) == ys + [x]
  {
    if ys != [] {
      InsertLargest(x, ys[1..], key);
    }
  }

  /** Rows already in strictly ascending key order are left as they are. */
  lemma {:induction false} SortByOfStrictlyAscending<T>(xs: seq<T>, key: T -> int)
    requires StrictlyAscending(xs, key)
    ensures SortBy(xs, key) == xs
  {
    if xs != [] {
      SortByOfStrictlyAscending(xs[1..], key);
    }
  }

  /** Rows in strictly descending key order come out reversed. */
  lemma {:induction false} SortByOfStrictlyDescending<T>(xs: seq<T>, key: T -> int)
    requires StrictlyDescending(xs, key)
    ensures SortBy(xs, key) == Reverse(xs)
  {
    if xs != [] {
      SortByOfStrictlyDescending(xs[1..], key);
      var rest := Reverse(xs[1..]);
      InsertLargest(xs[0], rest, key);
    }
  }
}
