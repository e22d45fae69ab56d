/** Go's stable slice sort, as the code relies on it, and the ascending list of a set of
    keys, which is what sorting the keys of a map comes to in any iteration order. */
module Sorting {
  import opened Sequences

  /** An order whose ties are an equivalence. */
  ghost predicate WeakOrder<T(!new)>(less: (T, T) -> bool) {
    && (forall a, b :: less(a, b) ==> !less(b, a))
    && (forall a, b, c :: !less(a, b) && !less(b, c) ==> !less(a, c))
  }

  ghost predicate TotalOrder<T(!new)>(less: (T, T) -> bool) {
    && WeakOrder(less)
    && (forall a, b :: a == b || less(a, b) || less(b, a))
  }

  ghost predicate Sorted<T>(less: (T, T) -> bool, s: seq<T>) {
    forall i, j :: 0 <= i < j < |s| ==> !less(s[j], s[i])
  }

  /** Puts x before the first element that is not less than it. */
  function Insert<T>(less: (T, T) -> bool, x: T, s: seq<T>): seq<T> {
    if s == [] then [x]
    else if less(s[0], x) then [s[0]] + Insert(less, x, s[1..])
    else [x] + s
  }

  function SliceStable<T>(less: (T, T) -> bool, s: seq<T>): seq<T> {
    if s == [] then [] else Insert(less, s[0], SliceStable(less, s[1..]))
  }

  lemma {:induction false} InsertElements<T(!new)>(less: (T, T) -> bool, x: T, s: seq<T>)
    ensures multiset(Insert(less, x, s)) == multiset(s) + multiset{x}
  {
    if s != [] {
      assert s == [s[0]] + s[1..];
      if less(s[0], x) {
        InsertElements(less, x, s[1..]);
      }
    }
  }

  lemma {:induction false} SliceStableElements<T(!new)>(less: (T, T) -> bool, s: seq<T>)
    ensures multiset(SliceStable(less, s)) == multiset(s)
  {
    if s != [] {
      SliceStableElements(less, s[1..]);
      InsertElements(less, s[0], SliceStable(less, s[1..]));
      assert s == [s[0]] + s[1..];
    }
  }

  lemma SliceStableLength<T(!new)>(less: (T, T) -> bool, s: seq<T>)
    ensures |SliceStable(less, s)| == |s|
  {
    SliceStableElements(less, s);
    assert |multiset(SliceStable(less, s))| == |multiset(s)|;
  }

  lemma FilterSnoc<T>(s: seq<T>, x: T, in_: T -> bool)
    ensures Filter(s + [x], in_) == if in_(x) then Filter(s, in_) + [x] else Filter(s, in_)
  {
    FilterConcat(s, [x], in_);
  }

  lemma SortedCons<T(!new)>(less: (T, T) -> bool, x: T, s: seq<T>)
    requires Sorted(less, s) && forall i :: 0 <= i < |s| ==> !less(s[i], x)
    ensures Sorted(less, [x] + s)
  {
  }

  lemma {:induction false} InsertSorted<T(!new)>(less: (T, T) -> bool, x: T, s: seq<T>)
    requires WeakOrder(less) && Sorted(less, s)
    ensures Sorted(less, Insert(less, x, s))
  {
    if s != [] {
      if less(s[0], x) {
        var rest := Insert(less, x, s[1..]);
        InsertSorted(less, x, s[1..]);
        InsertElements(less, x, s[1..]);
        forall i | 0 <= i < |rest|
          ensures !less(rest[i], s[0])
        {
          assert rest[i] in multiset(rest);
          assert rest[i] == x || rest[i] in s[1..];
        }
        SortedCons(less, s[0], rest);
      } else {
        forall i | 0 <= i < |s|
          ensures !less(s[i], x)
        {
          assert i == 0 || !less(s[i], s[0]);
        }
        SortedCons(less, x, s);
      }
    }
  }

  lemma {:induction false} SliceStableSorted<T(!new)>(less: (T, T) -> bool, s: seq<T>)
    requires WeakOrder(less)
    ensures Sorted(less, SliceStable(less, s))
  {
    if s != [] {
      SliceStableSorted(less, s[1..]);
      InsertSorted(less, s[0], SliceStable(less, s[1..]));
    }
  }

  /** A sorted list is left as it is. */
  lemma {:induction false} SortedIsFixed<T(!new)>(less: (T, T) -> bool, s: seq<T>)
    requires Sorted(less, s)
    ensures SliceStable(less, s) == s
  {
    if s != [] {
      SortedIsFixed(less, s[1..]);
      assert |s| > 1 ==> !less(s[1], s[0]);
    }
  }

  /** The elements of s that are in a class, in their order. */
  function Filter<T>(s: seq<T>, in_: T -> bool): seq<T> {
    if s == [] then [] else (if in_(s[0]) then [s[0]] else []) + Filter(s[1..], in_)
  }

  lemma FilterCons<T>(x: T, s: seq<T>, in_: T -> bool)
    ensures Filter([x] + s, in_) == (if in_(x) then [x] else []) + Filter(s, in_)
  {
    assert ([x] + s)[1..] == s;
  }

  lemma {:induction false} FilterConcat<T>(a: seq<T>, b: seq<T>, in_: T -> bool)
    ensures Filter(a + b, in_) == Filter(a, in_) + Filter(b, in_)
  {
    if a == [] {
      assert a + b == b;
    } else {
      var x, rest := a[0], a[1..];
      FilterConcat(rest, b, in_);
      assert a == [x] + rest;
      Assoc([x], rest, b);
      FilterCons(x, rest, in_);
      FilterCons(x, rest + b, in_);
      Assoc(if in_(x) then [x] else [], Filter(rest, in_), Filter(b, in_));
    }
  }

  lemma {:induction false} FilterAll<T>(s: seq<T>, in_: T -> bool)
    requires forall x :: x in s ==> in_(x)
    ensures Filter(s, in_) == s
  {
    if s != [] {
      FilterAll(s[1..], in_);
    }
  }

  lemma {:induction false} FilterNone<T>(s: seq<T>, in_: T -> bool)
    requires forall x :: x in s ==> !in_(x)
    ensures Filter(s, in_) == []
  {
    if s != [] {
      FilterNone(s[1..], in_);
    }
  }

  lemma {:induction false} FilterElements<T(!new)>(s: seq<T>, in_: T -> bool)
    ensures forall x :: multiset(Filter(s, in_))[x] == if in_(x) then multiset(s)[x] else 0
  {
    if s != [] {
      FilterElements(s[1..], in_);
      assert s == [s[0]] + s[1..];
    }
  }

  lemma {:induction false} InsertStable<T(!new)>(less: (T, T) -> bool, x: T, s: seq<T>, in_: T -> bool)
    requires forall a, b :: in_(a) && in_(b) ==> !less(a, b)
    ensures Filter(Insert(less, x, s), in_) == (if in_(x) then [x] else []) + Filter(s, in_)
  {
    if s != [] && less(s[0], x) {
      InsertStable(less, x, s[1..], in_);
      FilterCons(s[0], Insert(less, x, s[1..]), in_);
      NothingBefore(Filter(s[1..], in_));
      NothingBefore(Filter(s, in_));
      NothingBefore(Filter(Insert(less, x, s[1..]), in_));
    } else {
      assert s == [] ==> [x] + s == [x];
      FilterCons(x, s, in_);
    }
  }

  /** The sort is stable: elements none of which is less than another keep their order. */
  lemma {:induction false} SliceStableStable<T(!new)>(less: (T, T) -> bool, s: seq<T>, in_: T -> bool)
    requires forall a, b :: in_(a) && in_(b) ==> !less(a, b)
    ensures Filter(SliceStable(less, s), in_) == Filter(s, in_)
  {
    if s != [] {
      SliceStableStable(less, s[1..], in_);
      InsertStable(less, s[0], SliceStable(less, s[1..]), in_);
    }
  }

  lemma EqualByTail<T>(a: seq<T>, b: seq<T>)
    requires a != [] && b != [] && a[0] == b[0] && a[1..] == b[1..]
    ensures a == b
  {
    assert a == [a[0]] + a[1..] && b == [b[0]] + b[1..];
  }

  lemma TailElements<T>(s: seq<T>)
    requires s != []
    ensures multiset(s[1..]) == multiset(s) - multiset{s[0]}
  {
    assert s == [s[0]] + s[1..];
  }

  lemma SameFirst<T(!new)>(less: (T, T) -> bool, a: seq<T>, b: seq<T>)
    requires Sorted(less, a) && Sorted(less, b) && multiset(a) == multiset(b) && a != []
    requires forall x, y :: x in a && y in a ==> x == y || less(x, y) || less(y, x)
    ensures b != [] && a[0] == b[0]
  {
    assert a[0] in multiset(b) && |a| == |multiset(a)| == |multiset(b)| == |b|;
    assert b[0] in multiset(a);
    var i :| 0 <= i < |b| && b[i] == a[0];
    var j :| 0 <= j < |a| && a[j] == b[0];
  }

  /** Without ties, the elements of a sorted list determine it. */
  lemma {:induction false} SortedUnique<T(!new)>(less: (T, T) -> bool, a: seq<T>, b: seq<T>)
    requires Sorted(less, a) && Sorted(less, b) && multiset(a) == multiset(b)
    requires forall x, y :: x in a && y in a ==> x == y || less(x, y) || less(y, x)
    ensures a == b
  {
    if a == [] {
      assert |multiset(b)| == 0;
    } else {
      SameFirst(less, a, b);
      TailElements(a);
      TailElements(b);
      SortedUnique(less, a[1..], b[1..]);
      EqualByTail(a, b);
    }
  }

  // ----- The keys of a map in ascending order -----

  /** s lists the keys once each, in strictly ascending order. */
  ghost predicate Lists<T(!new)>(less: (T, T) -> bool, s: seq<T>, keys: set<T>) {
    && (forall k :: k in s <==> k in keys)
    && (forall i, j :: 0 <= i < j < |s| ==> less(s[i], s[j]))
  }

  lemma ListsUnique<T(!new)>(less: (T, T) -> bool, a: seq<T>, b: seq<T>, keys: set<T>)
    requires TotalOrder(less) && Lists(less, a, keys) && Lists(less, b, keys)
    ensures a == b
  {
    ListsElements(less, a, keys);
    ListsElements(less, b, keys);
    SortedUnique(less, a, b);
  }

  lemma {:induction false} DistinctElements<T(!new)>(s: seq<T>)
    requires forall i, j :: 0 <= i < j < |s| ==> s[i] != s[j]
    ensures forall x :: multiset(s)[x] == if x in s then 1 else 0
  {
    if s != [] {
      DistinctElements(s[1..]);
      assert s == [s[0]] + s[1..];
    }
  }

  lemma {:induction false} SimpleIsDistinct<T(!new)>(s: seq<T>)
    requires forall x :: multiset(s)[x] <= 1
    ensures forall i, j :: 0 <= i < j < |s| ==> s[i] != s[j]
  {
    if s != [] {
      var rest := s[1..];
      assert s == [s[0]] + rest;
      assert multiset(s)[s[0]] == 1 + multiset(rest)[s[0]];
      assert forall i :: 0 <= i < |rest| ==> rest[i] in multiset(rest);
      assert forall x :: multiset(rest)[x] <= multiset(s)[x];
      SimpleIsDistinct(rest);
    }
  }

  lemma ListsElements<T(!new)>(less: (T, T) -> bool, s: seq<T>, keys: set<T>)
    requires WeakOrder(less) && Lists(less, s, keys)
    ensures multiset(s) == multiset(keys)
  {
    DistinctElements(s);
  }

  /** Sorting the keys of a set, listed in any order, lists them in ascending order. */
  lemma SortedKeysList<T(!new)>(less: (T, T) -> bool, listed: seq<T>, keys: set<T>)
    requires TotalOrder(less) && multiset(listed) == multiset(keys)
    ensures Lists(less, SliceStable(less, listed), keys)
  {
    var s := SliceStable(less, listed);
    SliceStableElements(less, listed);
    SliceStableSorted(less, listed);
    forall k
      ensures k in s <==> k in keys
    {
      assert k in s <==> k in multiset(s);
    }
    SimpleIsDistinct(s);
  }

  ghost function Ascending<T(!new)>(less: (T, T) -> bool, keys: set<T>): (s: seq<T>)
    requires TotalOrder(less)
    ensures Lists(less, s, keys)
  {
    var listed := Listed(keys);
    SortedKeysList(less, listed, keys);
    SliceStable(less, listed)
  }

  ghost function Listed<T>(keys: set<T>): (s: seq<T>)
    ensures multiset(s) == multiset(keys)
  {
    if keys == {} then []
    else
      var k :| k in keys;
      assert multiset(keys) == multiset(keys - {k}) + multiset{k};
      [k] + Listed(keys - {k})
  }
}
