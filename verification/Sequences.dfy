/** Filtering and mapping of sequences. */
module Sequences {

  // ---- filtering

  function Filter<T>(p: T -> bool, s: seq<T>): (r: seq<T>)
    ensures forall x :: x in r ==> x in s && p(x)
    ensures forall x :: x in s && p(x) ==> x in r
  {
    if s == [] then [] else (if p(s[0]) then [s[0]] else []) + Filter(p, s[1..])
  }

  lemma {:induction false} FilterAppend<T>(p: T -> bool, s: seq<T>, t: seq<T>)
    ensures Filter(p, s + t) == Filter(p, s) + Filter(p, t)
  {
    if s == [] {
      assert s + t == t;
    } else {
      assert (s + t)[1..] == s[1..] + t;
      FilterAppend(p, s[1..], t);
    }
  }

  /** An element that is filtered out may be removed first. */
  lemma {:induction false} FilterWithoutDropped<T>(p: T -> bool, s: seq<T>, i: nat)
    requires i < |s| && !p(s[i])
    ensures Filter(p, s) == Filter(p, s[..i] + s[i + 1..])
  {
    if i == 0 {
      assert s[..0] + s[1..] == s[1..];
    } else {
      var rest, without := s[1..], s[..i] + s[i + 1..];
      FilterWithoutDropped(p, rest, i - 1);
      assert without[1..] == rest[..i - 1] + rest[i..];
    }
  }

  /** A kept element stands after those kept before it. */
  lemma FilterKeepsAt<T>(p: T -> bool, s: seq<T>, i: nat)
    requires i < |s| && p(s[i])
    ensures var r, front := Filter(p, s), Filter(p, s[..i]);
            |front| < |r| && r[..|front|] == front && r[|front|] == s[i]
  {
    var back := s[i + 1..];
    assert s == s[..i] + ([s[i]] + back);
    FilterAppend(p, s[..i], [s[i]] + back);
    assert ([s[i]] + back)[1..] == back;
  }

  ghost predicate Increasing(ps: seq<nat>) { forall i, j :: 0 <= i < j < |ps| ==> ps[i] < ps[j] }

  /** The positions of `s` that `keep` accepts. */
  function Positions<T>(keep: T -> bool, s: seq<T>): seq<nat> {
    if s == [] then []
    else Positions(keep, s[..|s| - 1]) + if keep(s[|s| - 1]) then [|s| - 1] else []
  }

  lemma {:induction false} PositionsIff<T>(keep: T -> bool, s: seq<T>, p: nat)
    ensures p in Positions(keep, s) <==> p < |s| && keep(s[p])
  {
    if s != [] {
      PositionsIff(keep, s[..|s| - 1], p);
    }
  }

  lemma {:induction false} PositionsIncrease<T>(keep: T -> bool, s: seq<T>)
    ensures Increasing(Positions(keep, s)) && forall k :: 0 <= k < |Positions(keep, s)| ==> Positions(keep, s)[k] < |s|
  {
    if s != [] {
      PositionsIncrease(keep, s[..|s| - 1]);
    }
  }

  /** Filtering picks the accepted positions in order. */
  lemma {:induction false} PositionsPick<T>(keep: T -> bool, s: seq<T>)
    ensures |Positions(keep, s)| == |Filter(keep, s)|
    ensures forall k :: 0 <= k < |Positions(keep, s)| ==>
              Positions(keep, s)[k] < |s| && s[Positions(keep, s)[k]] == Filter(keep, s)[k]
  {
    PositionsIncrease(keep, s);
    if s != [] {
      var n := |s| - 1;
      PositionsPick(keep, s[..n]);
      PositionsIncrease(keep, s[..n]);
      assert s == s[..n] + [s[n]];
      FilterAppend(keep, s[..n], [s[n]]);
    }
  }

  lemma {:induction false} FilterMultiset<T>(p: T -> bool, s: seq<T>, x: T)
    ensures multiset(Filter(p, s))[x] == if p(x) then multiset(s)[x] else 0
  {
    if s != [] {
      FilterMultiset(p, s[1..], x);
      assert s == [s[0]] + s[1..];
    }
  }

  /** Filtering keeps the multiset relation of permuted sequences. */
  lemma FilterPermuted<T(!new)>(p: T -> bool, q: T -> bool, s: seq<T>, t: seq<T>)
    requires multiset(s) == multiset(t)
    requires forall x :: x in s ==> p(x) == q(x)
    ensures multiset(Filter(p, s)) == multiset(Filter(q, t))
  {
    var a, b := multiset(Filter(p, s)), multiset(Filter(q, t));
    forall x ensures a[x] == b[x] {
      FilterMultiset(p, s, x);
      FilterMultiset(q, t, x);
      if x !in s {
        assert x !in multiset(s);
      }
    }
    assert a == b;
  }

  lemma SameElements<T(!new)>(s: seq<T>, t: seq<T>)
    requires multiset(s) == multiset(t)
    ensures |s| == |t|
    ensures forall x :: x in s <==> x in t
  {
    assert |multiset(s)| == |s| && |multiset(t)| == |t|;
    forall x ensures x in s <==> x in t {
      assert x in s <==> x in multiset(s);
      assert x in t <==> x in multiset(t);
    }
  }

  // ---- mapping

  /** Element-wise image of a sequence. */
  function Map<A, B>(f: A -> B, s: seq<A>): (r: seq<B>)
    ensures |r| == |s| && forall k :: 0 <= k < |s| ==> r[k] == f(s[k])
  {
    if s == [] then [] else [f(s[0])] + Map(f, s[1..])
  }

  ghost predicate Injective<A(!new), B(!new)>(f: A -> B) {
    forall x, y :: f(x) == f(y) ==> x == y
  }

  lemma {:induction false} MapMultiset<A(!new), B(!new)>(f: A -> B, s: seq<A>, x: A)
    requires Injective(f)
    ensures multiset(Map(f, s))[f(x)] == multiset(s)[x]
  {
    if s != [] {
      MapMultiset(f, s[1..], x);
      assert s == [s[0]] + s[1..];
      assert Map(f, s) == [f(s[0])] + Map(f, s[1..]);
    }
  }

  /** An injective map loses nothing of a multiset. */
  lemma MapKeepsMultisets<A(!new), B(!new)>(f: A -> B, s: seq<A>, t: seq<A>)
    requires Injective(f)
    ensures multiset(Map(f, s)) == multiset(Map(f, t)) <==> multiset(s) == multiset(t)
  {
    hide Map;
    if multiset(Map(f, s)) == multiset(Map(f, t)) {
      forall x ensures multiset(s)[x] == multiset(t)[x] {
        MapMultiset(f, s, x);
        MapMultiset(f, t, x);
      }
      assert multiset(s) == multiset(t);
    }
    if multiset(s) == multiset(t) {
      forall y ensures multiset(Map(f, s))[y] == multiset(Map(f, t))[y] {
        SameCount(f, s, t, y);
      }
      assert multiset(Map(f, s)) == multiset(Map(f, t));
    }
  }

  lemma SameCount<A(!new), B(!new)>(f: A -> B, s: seq<A>, t: seq<A>, y: B)
    requires Injective(f) && multiset(s) == multiset(t)
    ensures multiset(Map(f, s))[y] == multiset(Map(f, t))[y]
  {
    hide Map;
    if x :| f(x) == y {
      MapMultiset(f, s, x);
      MapMultiset(f, t, x);
    } else {
      NoOrigin(f, s, y);
      NoOrigin(f, t, y);
    }
  }

  lemma NoOrigin<A(!new), B>(f: A -> B, s: seq<A>, y: B)
    requires forall x :: f(x) != y
    ensures multiset(Map(f, s))[y] == 0
  {
    assert y !in Map(f, s);
  }

  /** The images of all elements, one after the other. */
  function FlatMap<A, B>(f: A -> seq<B>, s: seq<A>): seq<B> {
    if s == [] then [] else FlatMap(f, s[..|s| - 1]) + f(s[|s| - 1])
  }

  lemma {:induction false} InFlatMap<A, B>(f: A -> seq<B>, s: seq<A>, y: B)
    ensures y in FlatMap(f, s) <==> exists x :: x in s && y in f(x)
  {
    if s != [] {
      InFlatMap(f, s[..|s| - 1], y);
      assert s == s[..|s| - 1] + [s[|s| - 1]];
    }
  }
}
