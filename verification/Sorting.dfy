/** The stable sort that `Array.prototype.sort` performs for a comparison that is a
    total preorder: `before(a, b)` holds when the comparator is not positive. */
module Sorting {

  ghost predicate TotalPreorder<T(!new)>(before: (T, T) -> bool) {
    (forall a, b :: before(a, b) || before(b, a)) &&
    (forall a, b, c :: before(a, b) && before(b, c) ==> before(a, c))
  }

  function Insert<T>(x: T, sorted: seq<T>, before: (T, T) -> bool): (r: seq<T>)
    ensures |r| == |sorted| + 1
  {
    if sorted == [] || before(x, sorted[0]) then [x] + sorted
    else [sorted[0]] + Insert(x, sorted[1..], before)
  }

  function SortBy<T>(xs: seq<T>, before: (T, T) -> bool): (r: seq<T>)
    ensures |r| == |xs|
  {
    if xs == [] then [] else Insert(xs[0], SortBy(xs[1..], before), before)
  }

  predicate SortedBy<T>(xs: seq<T>, before: (T, T) -> bool) {
    forall i, j :: 0 <= i < j < |xs| ==> before(xs[i], xs[j])
  }

  predicate Tied<T>(x: T, y: T, before: (T, T) -> bool) {
    before(x, y) && before(y, x)
  }

  /** Those of `xs` that rank with `x`, in their order. */
  function Peers<T>(xs: seq<T>, x: T, before: (T, T) -> bool): seq<T> {
    if xs == [] then []
    else (if Tied(x, xs[0], before) then [xs[0]] else []) + Peers(xs[1..], x, before)
  }

  lemma {:induction false} InsertKeeps<T>(x: T, sorted: seq<T>, before: (T, T) -> bool)
    ensures multiset(Insert(x, sorted, before)) == multiset(sorted) + multiset{x}
  {
    if sorted != [] && !before(x, sorted[0]) {
      assert sorted == [sorted[0]] + sorted[1..];
      InsertKeeps(x, sorted[1..], before);
    }
  }

  lemma SortedTail<T>(sorted: seq<T>, before: (T, T) -> bool)
    requires sorted != [] && SortedBy(sorted, before)
    ensures SortedBy(sorted[1..], before)
  {
    forall i, j | 0 <= i < j < |sorted[1..]| ensures before(sorted[1..][i], sorted[1..][j]) {
      assert before(sorted[i + 1], sorted[j + 1]);
    }
  }

  lemma SortedCons<T(!new)>(x: T, rest: seq<T>, before: (T, T) -> bool)
    requires TotalPreorder(before) && SortedBy(rest, before) && (rest != [] ==> before(x, rest[0]))
    ensures SortedBy([x] + rest, before)
  {
    forall j | 0 <= j < |rest| ensures before(x, rest[j]) {
      if j > 0 { assert before(rest[0], rest[j]); }
    }
  }

  lemma {:induction false} InsertSorted<T(!new)>(x: T, sorted: seq<T>, before: (T, T) -> bool)
    requires TotalPreorder(before) && SortedBy(sorted, before)
    ensures SortedBy(Insert(x, sorted, before), before)
    ensures Insert(x, sorted, before)[0] == x || (sorted != [] && Insert(x, sorted, before)[0] == sorted[0])
  {
    hide SortedBy;
    if sorted == [] || before(x, sorted[0]) {
      SortedCons(x, sorted, before);
    } else {
      SortedTail(sorted, before);
      InsertSorted(x, sorted[1..], before);
      assert sorted[1..] != [] ==> before(sorted[0], sorted[1..][0]) by { SortedFirstTwo(sorted, before); }
      SortedCons(sorted[0], Insert(x, sorted[1..], before), before);
    }
  }

  lemma SortedFirstTwo<T>(sorted: seq<T>, before: (T, T) -> bool)
    requires SortedBy(sorted, before)
    ensures |sorted| > 1 ==> before(sorted[0], sorted[1])
  {
  }

  /** Sorting reorders and nothing else. */
  lemma {:induction false} SortKeeps<T>(xs: seq<T>, before: (T, T) -> bool)
    ensures multiset(SortBy(xs, before)) == multiset(xs)
  {
    if xs != [] {
      assert xs == [xs[0]] + xs[1..];
      SortKeeps(xs[1..], before);
      InsertKeeps(xs[0], SortBy(xs[1..], before), before);
    }
  }

  lemma {:induction false} SortSorts<T(!new)>(xs: seq<T>, before: (T, T) -> bool)
    requires TotalPreorder(before)
    ensures SortedBy(SortBy(xs, before), before)
  {
    if xs != [] {
      SortSorts(xs[1..], before);
      InsertSorted(xs[0], SortBy(xs[1..], before), before);
    }
  }

  lemma TiedThroughout<T(!new)>(x: T, y: T, z: T, before: (T, T) -> bool)
    requires TotalPreorder(before) && Tied(y, x, before) && Tied(y, z, before)
    ensures before(x, z)
  {
  }

  lemma PeersCons<T>(x: T, rest: seq<T>, y: T, before: (T, T) -> bool)
    ensures Peers([x] + rest, y, before) == (if Tied(y, x, before) then [x] else []) + Peers(rest, y, before)
  {
    assert ([x] + rest)[1..] == rest;
  }

  lemma {:induction false} InsertStable<T(!new)>(x: T, sorted: seq<T>, y: T, before: (T, T) -> bool)
    requires TotalPreorder(before)
    ensures Peers(Insert(x, sorted, before), y, before) ==
            (if Tied(y, x, before) then [x] else []) + Peers(sorted, y, before)
  {
    hide TotalPreorder, Tied;
    if sorted == [] || before(x, sorted[0]) {
      PeersCons(x, sorted, y, before);
    } else {
      var first, rest := sorted[0], sorted[1..];
      assert sorted == [first] + rest;
      PeersCons(first, rest, y, before);
      PeersCons(first, Insert(x, rest, before), y, before);
      InsertStable(x, rest, y, before);
      if Tied(y, x, before) && Tied(y, first, before) {
        TiedThroughout(x, y, first, before);
      }
    }
  }

  /** Elements that rank equal keep the order they came in. */
  lemma {:induction false} SortStable<T(!new)>(xs: seq<T>, y: T, before: (T, T) -> bool)
    requires TotalPreorder(before)
    ensures Peers(SortBy(xs, before), y, before) == Peers(xs, y, before)
  {
    if xs != [] {
      SortStable(xs[1..], y, before);
      InsertStable(xs[0], SortBy(xs[1..], before), y, before);
    }
  }
}
