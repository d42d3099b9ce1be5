/**
  Stable sorting of sequences.

  The original calls the sorts of its standard library. They are modelled by one
  stable insertion sort; `StableSortIsUnique` shows that any other stable sort
  returns the same sequence, so nothing depends on the algorithm.
 */
module Sorting {
  import opened Sequences

  // ---- sorting

  ghost predicate TotalPreorder<T(!new)>(le: (T, T) -> bool) {
    && (forall x, y :: le(x, y) || le(y, x))
    && (forall x, y, z :: le(x, y) && le(y, z) ==> le(x, z))
  }

  ghost predicate Antisymmetric<T(!new)>(le: (T, T) -> bool) {
    forall x, y :: le(x, y) && le(y, x) ==> x == y
  }

  ghost predicate Sorted<T>(le: (T, T) -> bool, s: seq<T>) {
    forall i, j :: 0 <= i < j < |s| ==> le(s[i], s[j])
  }

  function Insert<T>(le: (T, T) -> bool, x: T, s: seq<T>): (r: seq<T>)
    ensures multiset(r) == multiset([x]) + multiset(s)
  {
    if s == [] || le(x, s[0]) then [x] + s
    else
      assert s == [s[0]] + s[1..];
      [s[0]] + Insert(le, x, s[1..])
  }

  function StableSort<T>(le: (T, T) -> bool, s: seq<T>): (r: seq<T>)
    ensures multiset(r) == multiset(s)
  {
    if s == [] then []
    else
      assert s == [s[0]] + s[1..];
      Insert(le, s[0], StableSort(le, s[1..]))
  }

  lemma {:induction false} InsertSorted<T(!new)>(le: (T, T) -> bool, x: T, s: seq<T>)
    requires TotalPreorder(le) && Sorted(le, s)
    ensures Sorted(le, Insert(le, x, s))
  {
    if s != [] && !le(x, s[0]) {
      InsertSorted(le, x, s[1..]);
      var r := Insert(le, x, s[1..]);
      forall k | 0 <= k < |r| ensures le(s[0], r[k]) {
        assert r[k] in multiset(r);
        assert r[k] == x || r[k] in s[1..];
      }
    }
  }

  lemma {:induction false} StableSortSorted<T(!new)>(le: (T, T) -> bool, s: seq<T>)
    requires TotalPreorder(le)
    ensures Sorted(le, StableSort(le, s))
  {
    if s != [] {
      StableSortSorted(le, s[1..]);
      InsertSorted(le, s[0], StableSort(le, s[1..]));
    }
  }

  /** The elements tied with `x`. */
  function Ties<T>(le: (T, T) -> bool, x: T): T -> bool { y => le(x, y) && le(y, x) }

  lemma {:induction false} InsertStable<T(!new)>(le: (T, T) -> bool, x: T, s: seq<T>, k: T)
    requires TotalPreorder(le)
    ensures Filter(Ties(le, k), Insert(le, x, s)) == Filter(Ties(le, k), [x] + s)
  {
    if s != [] && !le(x, s[0]) {
      var p, rest := Ties(le, k), s[1..];
      InsertStable(le, x, rest, k);
      NotBothTied(le, x, s[0], k);
      hide TotalPreorder, Ties, Insert, Filter;
      FilterAppend(p, [s[0]], Insert(le, x, rest));
      FilterAppend(p, [s[0]], [x] + rest);
      FilterSwap(p, x, s[0], rest);
      assert [x] + s == [x] + ([s[0]] + rest);
      assert Insert(le, x, s) == [s[0]] + Insert(le, x, rest) by { InsertBehind(le, x, s); }
    }
  }

  lemma InsertBehind<T>(le: (T, T) -> bool, x: T, s: seq<T>)
    requires s != [] && !le(x, s[0])
    ensures Insert(le, x, s) == [s[0]] + Insert(le, x, s[1..])
  {}

  /** Neighbours that are not both kept may be exchanged. */
  lemma FilterSwap<T>(p: T -> bool, x: T, y: T, s: seq<T>)
    requires !(p(x) && p(y))
    ensures Filter(p, [y] + ([x] + s)) == Filter(p, [x] + ([y] + s))
  {
    assert ([y] + ([x] + s))[1..] == [x] + s && ([x] + ([y] + s))[1..] == [y] + s;
    assert ([x] + s)[1..] == s && ([y] + s)[1..] == s;
  }

  lemma NotBothTied<T(!new)>(le: (T, T) -> bool, x: T, y: T, k: T)
    requires TotalPreorder(le) && !le(x, y)
    ensures !(Ties(le, k)(x) && Ties(le, k)(y))
  {}

  /** Elements that compare equal keep their order. */
  lemma {:induction false} StableSortStable<T(!new)>(le: (T, T) -> bool, s: seq<T>, k: T)
    requires TotalPreorder(le)
    ensures Filter(Ties(le, k), StableSort(le, s)) == Filter(Ties(le, k), s)
  {
    if s != [] {
      var rest := StableSort(le, s[1..]);
      StableSortStable(le, s[1..], k);
      InsertStable(le, s[0], rest, k);
      FilterAppend(Ties(le, k), [s[0]], rest);
      FilterAppend(Ties(le, k), [s[0]], s[1..]);
      assert s == [s[0]] + s[1..];
    }
  }

  /** A sorted sequence with the ties of `s` in the order of `s` is the stable sort of `s`. */
  lemma StableSortIsUnique<T(!new)>(le: (T, T) -> bool, s: seq<T>, r: seq<T>)
    requires TotalPreorder(le) && Sorted(le, r)
    requires forall k :: Filter(Ties(le, k), r) == Filter(Ties(le, k), s)
    ensures r == StableSort(le, s)
  {
    StableSortSorted(le, s);
    forall k ensures Filter(Ties(le, k), r) == Filter(Ties(le, k), StableSort(le, s)) {
      StableSortStable(le, s, k);
    }
    SortedWithSameTies(le, r, StableSort(le, s));
  }

  lemma TiesHoldElement<T(!new)>(le: (T, T) -> bool, s: seq<T>, x: T)
    requires TotalPreorder(le)
    ensures x in s <==> x in Filter(Ties(le, x), s)
  {
    assert le(x, x) || le(x, x);
  }

  lemma {:induction false} SortedWithSameTies<T(!new)>(le: (T, T) -> bool, a: seq<T>, b: seq<T>)
    requires TotalPreorder(le) && Sorted(le, a) && Sorted(le, b)
    requires forall k :: Filter(Ties(le, k), a) == Filter(Ties(le, k), b)
    ensures a == b
  {
    forall x ensures x in a <==> x in b {
      TiesHoldElement(le, a, x);
      TiesHoldElement(le, b, x);
    }
    assert |a| > 0 ==> a[0] in b;
    assert |b| > 0 ==> b[0] in a;
    if a != [] {
      var x, y := a[0], b[0];
      SortedHeadIsLeast(le, a, y);
      SortedHeadIsLeast(le, b, x);
      assert Filter(Ties(le, x), a)[0] == x && Filter(Ties(le, x), b)[0] == y;
      forall k ensures Filter(Ties(le, k), a[1..]) == Filter(Ties(le, k), b[1..]) {
        FilterAppend(Ties(le, k), [x], a[1..]);
        FilterAppend(Ties(le, k), [x], b[1..]);
        assert a == [x] + a[1..] && b == [x] + b[1..];
        var head := Filter(Ties(le, k), [x]);
        assert Filter(Ties(le, k), a) == head + Filter(Ties(le, k), a[1..]);
        assert (head + Filter(Ties(le, k), a[1..]))[|head|..] == Filter(Ties(le, k), a[1..]);
        assert (head + Filter(Ties(le, k), b[1..]))[|head|..] == Filter(Ties(le, k), b[1..]);
      }
      SortedWithSameTies(le, a[1..], b[1..]);
    }
  }

  lemma SortedHeadIsLeast<T(!new)>(le: (T, T) -> bool, s: seq<T>, x: T)
    requires TotalPreorder(le) && Sorted(le, s) && x in s
    ensures le(s[0], x)
  {
    assert le(x, x) || le(x, x);
  }

  lemma TailMultiset<T>(s: seq<T>)
    requires s != []
    ensures multiset(s[1..]) == multiset(s) - multiset{s[0]}
  {
    assert s == [s[0]] + s[1..];
  }

  /** Under a total order two sorted permutations of each other are equal. */
  lemma {:induction false} SortedUnique<T(!new)>(le: (T, T) -> bool, a: seq<T>, b: seq<T>)
    requires Antisymmetric(le) && TotalPreorder(le)
    requires Sorted(le, a) && Sorted(le, b) && multiset(a) == multiset(b)
    ensures a == b
  {
    SameElements(a, b);
    if a != [] {
      SortedHeadIsLeast(le, a, b[0]);
      SortedHeadIsLeast(le, b, a[0]);
      assert a[0] == b[0];
      TailMultiset(a);
      TailMultiset(b);
      hide TotalPreorder, Antisymmetric;
      assert Sorted(le, a[1..]) && Sorted(le, b[1..]);
      SortedUnique(le, a[1..], b[1..]);
    }
  }

  /** Sorting forgets the order of its input. */
  lemma SortPermuted<T(!new)>(le: (T, T) -> bool, s: seq<T>, t: seq<T>)
    requires Antisymmetric(le) && TotalPreorder(le)
    requires multiset(s) == multiset(t)
    ensures StableSort(le, s) == StableSort(le, t)
  {
    StableSortSorted(le, s);
    StableSortSorted(le, t);
    SortedUnique(le, StableSort(le, s), StableSort(le, t));
  }

  predicate IntLe(x: int, y: int) { x <= y }

}
