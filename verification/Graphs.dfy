/**
  Paths and distances in a finitely branching graph with a list of starts, and the
  invariant of a breadth-first traversal.
 */
module Graphs {
  import opened Sequences

  datatype Graph<!V> = Graph(starts: seq<V>, succ: V -> seq<V>)

  ghost predicate IsWalk<V>(succ: V -> seq<V>, p: seq<V>) {
    p != [] && forall k :: 0 <= k < |p| - 1 ==> p[k + 1] in succ(p[k])
  }

  /** Some walk of `n` steps leads from a start to `v`. */
  ghost predicate ReachesIn<V(!new)>(g: Graph<V>, v: V, n: nat) {
    exists p :: IsWalk(g.succ, p) && p[0] in g.starts && |p| == n + 1 && p[n] == v
  }

  ghost predicate Reachable<V(!new)>(g: Graph<V>, v: V) { exists n: nat :: ReachesIn(g, v, n) }

  /** The breadth-first distance of `v`. */
  ghost predicate DistanceIs<V(!new)>(g: Graph<V>, v: V, n: nat) {
    ReachesIn(g, v, n) && forall m: nat :: ReachesIn(g, v, m) ==> n <= m
  }

  lemma StartReaches<V(!new)>(g: Graph<V>, v: V)
    requires v in g.starts
    ensures ReachesIn(g, v, 0)
  {
    assert IsWalk(g.succ, [v]);
  }

  lemma StepReaches<V(!new)>(g: Graph<V>, v: V, n: nat, w: V)
    requires ReachesIn(g, v, n) && w in g.succ(v)
    ensures ReachesIn(g, w, n + 1)
  {
    var p :| IsWalk(g.succ, p) && p[0] in g.starts && |p| == n + 1 && p[n] == v;
    var q := p + [w];
    assert IsWalk(g.succ, q) && q[n + 1] == w;
  }

  // ---- breadth-first traversal

  /** The state between two iterations; `level` labels the queue and `dist` the visited vertices. */
  datatype Traversal<!V> = Traversal(visited: set<V>, queue: seq<V>, level: seq<nat>, dist: map<V, nat>)

  ghost predicate Queued<V>(t: Traversal<V>, v: V, bound: nat) {
    exists i :: 0 <= i < |t.queue| && i < |t.level| && t.queue[i] == v && t.level[i] <= bound
  }

  /** The queue holds reachable vertices in ascending levels that span at most one step. */
  ghost predicate Levelled<V(!new)>(g: Graph<V>, t: Traversal<V>) {
    && |t.level| == |t.queue|
    && (forall i :: 0 <= i < |t.queue| ==> ReachesIn(g, t.queue[i], t.level[i]))
    && (forall i, j :: 0 <= i <= j < |t.level| ==> t.level[i] <= t.level[j] <= t.level[i] + 1)
  }

  /** Visited vertices carry their distance, which no queued level undercuts. */
  ghost predicate Measured<V(!new)>(g: Graph<V>, t: Traversal<V>) {
    && t.dist.Keys == t.visited
    && (forall v :: v in t.visited ==> DistanceIs(g, v, t.dist[v]))
    && (forall v :: v in t.visited && t.level != [] ==> t.dist[v] <= t.level[0])
  }

  /** Starts and successors of visited vertices are visited or queued soon enough. */
  ghost predicate Covered<V(!new)>(g: Graph<V>, t: Traversal<V>)
    requires t.dist.Keys == t.visited
  {
    && (forall v :: v in g.starts ==> v in t.visited || Queued(t, v, 0))
    && (forall v, w :: v in t.visited && w in g.succ(v) ==> w in t.visited || Queued(t, w, t.dist[v] + 1))
  }

  ghost predicate Consistent<V(!new)>(g: Graph<V>, t: Traversal<V>) {
    Levelled(g, t) && Measured(g, t) && Covered(g, t)
  }

  /** A walk to an unvisited vertex passes through the queue at a level within its length. */
  lemma {:induction false} WalkCrossesQueue<V(!new)>(g: Graph<V>, t: Traversal<V>, p: seq<V>)
    requires Consistent(g, t) && IsWalk(g.succ, p) && p[0] in g.starts && p[|p| - 1] !in t.visited
    ensures exists i :: 0 <= i < |t.queue| && t.level[i] <= |p| - 1
    decreases |p|
  {
    var last := p[|p| - 1];
    if |p| == 1 {
      assert Queued(t, last, 0);
    } else {
      var q := p[..|p| - 1];
      var v := q[|q| - 1];
      assert IsWalk(g.succ, q);
      if v in t.visited {
        assert ReachesIn(g, v, |q| - 1);
        assert last in g.succ(v);
        assert Queued(t, last, t.dist[v] + 1);
      } else {
        WalkCrossesQueue(g, t, q);
      }
    }
  }

  lemma FrontDistance<V(!new)>(g: Graph<V>, t: Traversal<V>)
    requires Consistent(g, t) && t.queue != [] && t.queue[0] !in t.visited
    ensures DistanceIs(g, t.queue[0], t.level[0])
  {
    forall m: nat | ReachesIn(g, t.queue[0], m) ensures t.level[0] <= m {
      var p :| IsWalk(g.succ, p) && p[0] in g.starts && |p| == m + 1 && p[m] == t.queue[0];
      WalkCrossesQueue(g, t, p);
    }
  }

  /** When the queue is empty, exactly the reachable vertices have been visited. */
  lemma EmptyQueueIsComplete<V(!new)>(g: Graph<V>, t: Traversal<V>)
    requires Consistent(g, t) && t.queue == []
    ensures forall v :: v in t.visited <==> Reachable(g, v)
  {
    forall v | Reachable(g, v) ensures v in t.visited {
      var n: nat :| ReachesIn(g, v, n);
      var p :| IsWalk(g.succ, p) && p[0] in g.starts && |p| == n + 1 && p[n] == v;
      if v !in t.visited {
        WalkCrossesQueue(g, t, p);
      }
    }
  }

  function Start<V>(g: Graph<V>): Traversal<V> {
    Traversal({}, g.starts, seq(|g.starts|, i => 0), map[])
  }

  lemma StartIsConsistent<V(!new)>(g: Graph<V>)
    ensures Consistent(g, Start(g))
  {
    var t := Start(g);
    forall i | 0 <= i < |t.queue| ensures ReachesIn(g, t.queue[i], t.level[i]) {
      StartReaches(g, t.queue[i]);
    }
    forall v | v in g.starts ensures Queued(t, v, 0) {
      var i :| 0 <= i < |g.starts| && g.starts[i] == v;
      assert t.queue[i] == v && t.level[i] == 0;
    }
  }

  /** Drops a front vertex that was already visited. */
  function Dropped<V>(t: Traversal<V>): Traversal<V>
    requires t.queue != [] && |t.level| == |t.queue|
  {
    t.(queue := t.queue[1..], level := t.level[1..])
  }

  lemma DroppedIsConsistent<V(!new)>(g: Graph<V>, t: Traversal<V>)
    requires Consistent(g, t) && t.queue != [] && t.queue[0] in t.visited
    ensures Consistent(g, Dropped(t))
  {
    forall v, bound: nat | Queued(t, v, bound) && v !in t.visited ensures Queued(Dropped(t), v, bound) {
      var i :| 0 <= i < |t.queue| && t.queue[i] == v && t.level[i] <= bound;
      assert Dropped(t).queue[i - 1] == v;
    }
  }

  /** The successors that a visit enqueues. */
  function Unvisited<V>(visited: set<V>, succs: seq<V>): seq<V> { Filter((w: V) => w !in visited, succs) }

  /** Visits the front vertex and enqueues its successors that are still unvisited. */
  function Expanded<V>(g: Graph<V>, t: Traversal<V>): Traversal<V>
    requires t.queue != [] && |t.level| == |t.queue|
  {
    var v, visited := t.queue[0], t.visited + {t.queue[0]};
    var news := Unvisited(visited, g.succ(v));
    Traversal(visited, t.queue[1..] + news, t.level[1..] + seq(|news|, i => t.level[0] + 1), t.dist[v := t.level[0]])
  }

  lemma ExpandedKeepsQueued<V(!new)>(g: Graph<V>, t: Traversal<V>, w: V, bound: nat)
    requires |t.level| == |t.queue| && t.queue != []
    requires Queued(t, w, bound) && w != t.queue[0]
    ensures Queued(Expanded(g, t), w, bound)
  {
    var u := Expanded(g, t);
    var i :| 0 <= i < |t.queue| && t.queue[i] == w && t.level[i] <= bound;
    assert u.queue[i - 1] == w && u.level[i - 1] == t.level[i];
  }

  lemma ExpandedEnqueues<V(!new)>(g: Graph<V>, t: Traversal<V>, w: V)
    requires |t.level| == |t.queue| && t.queue != [] && w in g.succ(t.queue[0])
    ensures w in Expanded(g, t).visited || Queued(Expanded(g, t), w, t.level[0] + 1)
  {
    var u := Expanded(g, t);
    var news := Unvisited(u.visited, g.succ(t.queue[0]));
    if w !in u.visited {
      var i :| 0 <= i < |news| && news[i] == w;
      assert u.queue[|t.queue| - 1 + i] == w && u.level[|t.queue| - 1 + i] == t.level[0] + 1;
    }
  }

  lemma ExpandedIsCovered<V(!new)>(g: Graph<V>, t: Traversal<V>)
    requires |t.level| == |t.queue| && t.queue != [] && t.dist.Keys == t.visited && Covered(g, t)
    requires t.queue[0] !in t.visited
    ensures Expanded(g, t).dist.Keys == Expanded(g, t).visited && Covered(g, Expanded(g, t))
  {
    var v, u := t.queue[0], Expanded(g, t);
    assert u.visited == t.visited + {v} && u.dist == t.dist[v := t.level[0]];
    hide Queued, Expanded;
    forall w | w in g.starts ensures w in u.visited || Queued(u, w, 0) {
      if w !in u.visited { ExpandedKeepsQueued(g, t, w, 0); }
    }
    forall x, w | x in u.visited && w in g.succ(x) ensures w in u.visited || Queued(u, w, u.dist[x] + 1) {
      if x == v {
        ExpandedEnqueues(g, t, w);
      } else if w !in u.visited {
        ExpandedKeepsQueued(g, t, w, t.dist[x] + 1);
      }
    }
  }

  lemma ExpandedIsConsistent<V(!new)>(g: Graph<V>, t: Traversal<V>)
    requires Consistent(g, t) && t.queue != [] && t.queue[0] !in t.visited
    ensures Consistent(g, Expanded(g, t))
  {
    FrontDistance(g, t);
    ExpandedLevels(g, t);
    ExpandedIsCovered(g, t);
    hide Levelled, Covered, DistanceIs;
    assert Measured(g, Expanded(g, t));
  }

  /** The queue after a visit: what was behind the front, then successors of it one level down. */
  lemma ExpandedAt<V(!new)>(g: Graph<V>, t: Traversal<V>, i: nat)
    requires |t.level| == |t.queue| && t.queue != []
    ensures var u := Expanded(g, t);
            && |u.level| == |u.queue| >= |t.queue| - 1
            && (i < |t.queue| - 1 ==> u.queue[i] == t.queue[i + 1] && u.level[i] == t.level[i + 1])
            && (|t.queue| - 1 <= i < |u.queue| ==> u.queue[i] in g.succ(t.queue[0]) && u.level[i] == t.level[0] + 1)
  {
    var u, n := Expanded(g, t), |t.queue| - 1;
    var news := Unvisited(u.visited, g.succ(t.queue[0]));
    if n <= i < |u.queue| {
      assert u.queue[i] == news[i - n] && news[i - n] in news;
    }
  }

  lemma ExpandedLevels<V(!new)>(g: Graph<V>, t: Traversal<V>)
    requires Consistent(g, t) && t.queue != [] && t.queue[0] !in t.visited
    ensures var u := Expanded(g, t);
            && Levelled(g, u)
            && (u.level != [] ==> t.level[0] <= u.level[0])
  {
    var l, u := t.level[0], Expanded(g, t);
    hide ReachesIn, Measured, Covered, Expanded;
    ExpandedAt(g, t, 0);
    forall i | 0 <= i < |u.queue| ensures ReachesIn(g, u.queue[i], u.level[i]) && l <= u.level[i] <= l + 1 {
      ExpandedAt(g, t, i);
      if i >= |t.queue| - 1 {
        StepReaches(g, t.queue[0], l, u.queue[i]);
      }
    }
    forall i, j | 0 <= i <= j < |u.level| ensures u.level[i] <= u.level[j] <= u.level[i] + 1 {
      ExpandedAt(g, t, i);
      ExpandedAt(g, t, j);
    }
  }
}
