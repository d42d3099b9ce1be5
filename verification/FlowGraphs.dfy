/**
  Attack Flow bundles as drawings: one node an action, edges that follow a single
  operator hop, and how far the drawing agrees with the rule traversal.
 */
module FlowGraphs {
  import opened Wrappers
  import opened Sequences
  import opened Graphs
  import opened ShortIds
  import opened AttackFlow

  datatype Node = Node(id: string, caption: string, tacticId: Option<string>, techniqueId: Option<string>)

  datatype Edge = Edge(from: string, to: string)

  datatype FlowGraph = FlowGraph(title: string, nodes: seq<Node>, edges: seq<Edge>)

  /** The node id of every action id; of two actions with one id the later wins. */
  function Names(actions: seq<Action>): (m: map<string, string>)
    ensures forall id :: id in m ==> exists i :: 0 <= i < |actions| && actions[i].id == id && m[id] == ShortIdOf(i)
    ensures forall i :: 0 <= i < |actions| ==> actions[i].id in m
  {
    if actions == [] then map[]
    else
      var n := |actions| - 1;
      assert forall i :: 0 <= i < n ==> actions[..n][i] == actions[i];
      Names(actions[..n])[actions[n].id := ShortIdOf(n)]
  }

  function FirstOperator(operators: seq<Operator>, id: string): (r: Option<Operator>)
    ensures r.None? ==> forall o :: o in operators ==> o.id != id
    ensures r.Some? ==> r.value in operators && r.value.id == id
  {
    if operators == [] then None
    else if operators[0].id == id then Some(operators[0])
    else FirstOperator(operators[1..], id)
  }

  /** A reference leads to the action it names or, through one operator, to the actions that operator names. */
  ghost predicate Leads(b: Bundle, r: string, y: string) {
    var names, op := Names(b.actions), FirstOperator(b.operators, r);
    y in names && if r in names then y == r else op.Some? && y in op.value.effectRefs
  }

  ghost predicate EdgeOfRef(b: Bundle, from: string, r: string, e: Edge) {
    exists y :: Leads(b, r, y) && e == Edge(from, Names(b.actions)[y])
  }

  ghost predicate EdgeOfAction(b: Bundle, a: Action, e: Edge) {
    a.id in Names(b.actions) && exists r :: r in a.effectRefs && EdgeOfRef(b, Names(b.actions)[a.id], r, e)
  }

  // ---- the edges in the order of drawing, one for every reference

  function EdgeTo(names: map<string, string>, from: string, y: string): seq<Edge> {
    if y in names then [Edge(from, names[y])] else []
  }

  function RefEdges(b: Bundle, from: string, r: string): seq<Edge> {
    var names, op := Names(b.actions), FirstOperator(b.operators, r);
    if r in names then EdgeTo(names, from, r)
    else if op.Some? then FlatMap((y: string) => EdgeTo(names, from, y), op.value.effectRefs)
    else []
  }

  function ActionEdges(b: Bundle, a: Action): seq<Edge> {
    var names := Names(b.actions);
    if a.id in names then FlatMap((r: string) => RefEdges(b, names[a.id], r), a.effectRefs) else []
  }

  /** One node an action, and the edges of all actions: both in order, an edge once for every reference. */
  ghost predicate IsDrawing(b: Bundle, g: FlowGraph) {
    && |g.nodes| == |b.actions|
    && (forall i :: 0 <= i < |b.actions| ==>
          g.nodes[i] == Node(ShortIdOf(i), b.actions[i].name, b.actions[i].tacticId, b.actions[i].techniqueId))
    && g.edges == FlatMap((a: Action) => ActionEdges(b, a), b.actions)
  }

  lemma RefEdgesIff(b: Bundle, from: string, r: string, e: Edge)
    ensures e in RefEdges(b, from, r) <==> EdgeOfRef(b, from, r, e)
  {
    hide FlatMap;
    var names, op := Names(b.actions), FirstOperator(b.operators, r);
    hide Names, FirstOperator;
    if r in names {
      assert Leads(b, r, r);
    } else if op.Some? {
      InFlatMap((y: string) => EdgeTo(names, from, y), op.value.effectRefs, e);
    }
  }

  lemma ActionEdgesIff(b: Bundle, a: Action, e: Edge)
    ensures e in ActionEdges(b, a) <==> EdgeOfAction(b, a, e)
  {
    hide Names, RefEdges, EdgeOfRef, FlatMap;
    var names := Names(b.actions);
    if a.id in names {
      InFlatMap((r: string) => RefEdges(b, names[a.id], r), a.effectRefs, e);
      forall r ensures e in RefEdges(b, names[a.id], r) <==> EdgeOfRef(b, names[a.id], r, e) {
        RefEdgesIff(b, names[a.id], r, e);
      }
    }
  }

  /** The edges of a drawing are exactly those the references lead to. */
  lemma DrawnEdges(b: Bundle, g: FlowGraph, e: Edge)
    requires IsDrawing(b, g)
    ensures e in g.edges <==> exists a :: a in b.actions && EdgeOfAction(b, a, e)
  {
    hide ActionEdges, EdgeOfAction, ShortIdOf, FlatMap;
    InFlatMap((a: Action) => ActionEdges(b, a), b.actions, e);
    forall a ensures e in ActionEdges(b, a) <==> EdgeOfAction(b, a, e) {
      ActionEdgesIff(b, a, e);
    }
  }

  lemma FlatMapSnoc<A, B>(f: A -> seq<B>, s: seq<A>, n: nat)
    requires n < |s|
    ensures FlatMap(f, s[..n + 1]) == FlatMap(f, s[..n]) + f(s[n])
  {
    assert s[..n + 1][..n] == s[..n];
  }

  method EdgesOfRef(b: Bundle, names: map<string, string>, from: string, r: string) returns (edges: seq<Edge>)
    requires names == Names(b.actions)
    ensures edges == RefEdges(b, from, r)
  {
    hide Names, FirstOperator, FlatMap;
    edges := [];
    if r in names {
      edges := [Edge(from, names[r])];
    } else {
      var op := FirstOperator(b.operators, r);
      if op.Some? {
        var refs := op.value.effectRefs;
        ghost var f := (y: string) => EdgeTo(names, from, y);
        NothingFlatMapped(f);
        for k := 0 to |refs|
          invariant edges == FlatMap(f, refs[..k])
        {
          FlatMapSnoc(f, refs, k);
          if refs[k] in names {
            edges := edges + [Edge(from, names[refs[k]])];
          }
        }
        assert refs[..|refs|] == refs;
      }
    }
  }

  lemma NothingFlatMapped<A, B>(f: A -> seq<B>)
    ensures FlatMap(f, []) == []
  {}

  method EdgesOfAction(b: Bundle, names: map<string, string>, a: Action) returns (edges: seq<Edge>)
    requires names == Names(b.actions)
    ensures edges == ActionEdges(b, a)
  {
    hide Names, RefEdges, FlatMap;
    edges := [];
    if a.id !in names {
      return;
    }
    var from, refs := names[a.id], a.effectRefs;
    ghost var f := (r: string) => RefEdges(b, names[a.id], r);
    NothingFlatMapped(f);
    for j := 0 to |refs|
      invariant edges == FlatMap(f, refs[..j])
    {
      FlatMapSnoc(f, refs, j);
      var more := EdgesOfRef(b, names, from, refs[j]);
      edges := edges + more;
    }
    assert refs[..|refs|] == refs;
  }

  method BundleToFlowGraph(b: Bundle) returns (g: FlowGraph)
    ensures IsDrawing(b, g) && g.title == if b.flow.Some? then b.flow.value.name else "Attack Flow"
  {
    hide Names, ActionEdges, ShortIdOf, FlatMap;
    var names, actions := Names(b.actions), b.actions;
    var nodes: seq<Node> := [];
    for i := 0 to |actions|
      invariant |nodes| == i
      invariant forall k :: 0 <= k < i ==>
                  nodes[k] == Node(ShortIdOf(k), actions[k].name, actions[k].tacticId, actions[k].techniqueId)
    {
      var id := ShortId(i);
      nodes := nodes + [Node(id, actions[i].name, actions[i].tacticId, actions[i].techniqueId)];
    }
    var edges: seq<Edge> := [];
    ghost var f := (a: Action) => ActionEdges(b, a);
    NothingFlatMapped(f);
    for i := 0 to |actions|
      invariant edges == FlatMap(f, actions[..i])
    {
      FlatMapSnoc(f, actions, i);
      var more := EdgesOfAction(b, names, actions[i]);
      edges := edges + more;
    }
    assert actions[..|actions|] == actions;
    g := FlowGraph(if b.flow.Some? then b.flow.value.name else "Attack Flow", nodes, edges);
  }

  // ---- well-formed drawings

  ghost predicate Declares(g: FlowGraph, id: string) { exists i :: 0 <= i < |g.nodes| && g.nodes[i].id == id }

  /** Node ids are distinct and every edge joins declared nodes, for every bundle. */
  lemma DrawingIsWellFormed(b: Bundle, g: FlowGraph)
    requires IsDrawing(b, g)
    ensures forall i, j :: 0 <= i < j < |g.nodes| ==> g.nodes[i].id != g.nodes[j].id
    ensures forall e :: e in g.edges ==> Declares(g, e.from) && Declares(g, e.to)
  {
    forall i, j | 0 <= i < j < |g.nodes| ensures g.nodes[i].id != g.nodes[j].id {
      if ShortIdOf(i) == ShortIdOf(j) {
        ShortIdInjective(i, j);
      }
    }
    forall id | id in Names(b.actions) ensures Declares(g, Names(b.actions)[id]) {
      var i :| 0 <= i < |b.actions| && b.actions[i].id == id && Names(b.actions)[id] == ShortIdOf(i);
      assert g.nodes[i].id == Names(b.actions)[id];
    }
    forall e | e in g.edges ensures Declares(g, e.from) && Declares(g, e.to) {
      DrawnEdges(b, g, e);
      var a :| a in b.actions && EdgeOfAction(b, a, e);
      var r :| r in a.effectRefs && EdgeOfRef(b, Names(b.actions)[a.id], r, e);
    }
  }

  // ---- the drawing against the rule traversal

  ghost predicate UniqueIds(b: Bundle) {
    && (forall i, j :: 0 <= i < j < |b.actions| ==> b.actions[i].id != b.actions[j].id)
    && (forall i, j :: 0 <= i < j < |b.operators| ==> b.operators[i].id != b.operators[j].id)
  }

  ghost predicate IsAction(b: Bundle, id: string) { id in ActionMap(b.actions) }

  /** An edge of the drawing joins the nodes of `x` and `y`. */
  ghost predicate HasEdge(b: Bundle, g: FlowGraph, x: string, y: string) {
    x in Names(b.actions) && y in Names(b.actions) && Edge(Names(b.actions)[x], Names(b.actions)[y]) in g.edges
  }

  // With unique ids every lookup finds the one object, whichever end it searches from.

  lemma ActionLookup(b: Bundle, a: Action)
    requires UniqueIds(b) && a in b.actions
    ensures IsAction(b, a.id) && ActionMap(b.actions)[a.id] == a && GraphOf(b).succ(a.id) == a.effectRefs
  {
    hide ActionMap, OperatorMap;
    assert ActionMap(b.actions)[a.id] in b.actions;
  }

  lemma OperatorLookup(b: Bundle, o: Operator)
    requires UniqueIds(b) && o in b.operators
    ensures OperatorMap(b.operators)[o.id] == o && FirstOperator(b.operators, o.id) == Some(o)
  {
    hide OperatorMap;
    assert OperatorMap(b.operators)[o.id] in b.operators;
  }

  lemma NamedIffAction(b: Bundle, id: string)
    ensures id in Names(b.actions) <==> IsAction(b, id)
  {}

  lemma NamesAreInjective(b: Bundle, x: string, y: string)
    requires x in Names(b.actions) && y in Names(b.actions) && Names(b.actions)[x] == Names(b.actions)[y]
    ensures x == y
  {
    var i :| 0 <= i < |b.actions| && b.actions[i].id == x && Names(b.actions)[x] == ShortIdOf(i);
    var j :| 0 <= j < |b.actions| && b.actions[j].id == y && Names(b.actions)[y] == ShortIdOf(j);
    ShortIdInjective(i, j);
  }

  /** One step of the rule traversal, or two through an operator. */
  ghost predicate OneHop(b: Bundle, x: string, y: string) {
    var succ := GraphOf(b).succ;
    y in succ(x) || exists r :: r in succ(x) && !IsAction(b, r) && y in succ(r)
  }

  lemma LeadsIsOneHop(b: Bundle, r: string, y: string)
    requires UniqueIds(b)
    ensures Leads(b, r, y) <==> IsAction(b, y) && (y == r || (!IsAction(b, r) && y in GraphOf(b).succ(r)))
  {
    NamedIffAction(b, r);
    NamedIffAction(b, y);
    OperatorSuccessors(b, r);
    hide Names, IsAction, FirstOperator, GraphOf, UniqueIds;
  }

  lemma OperatorSuccessors(b: Bundle, r: string)
    requires UniqueIds(b)
    ensures var op := FirstOperator(b.operators, r);
            !IsAction(b, r) ==> GraphOf(b).succ(r) == if op.Some? then op.value.effectRefs else []
  {
    var op := FirstOperator(b.operators, r);
    if op.Some? {
      OperatorLookup(b, op.value);
    }
    hide ActionMap, OperatorMap, FirstOperator, UniqueIds;
  }

  lemma EdgeHasOneSource(b: Bundle, g: FlowGraph, a: Action, y: string)
    requires UniqueIds(b) && IsDrawing(b, g) && a in b.actions
    ensures HasEdge(b, g, a.id, y) <==> exists r :: r in a.effectRefs && Leads(b, r, y)
  {
    hide Leads, FirstOperator, IsDrawing, Names, UniqueIds;
    var names := Names(b.actions);
    if r :| r in a.effectRefs && Leads(b, r, y) {
      LeadsToNames(b, r, y);
      DrawnEdges(b, g, Edge(names[a.id], names[y]));
      assert EdgeOfRef(b, names[a.id], r, Edge(names[a.id], names[y]));
      assert EdgeOfAction(b, a, Edge(names[a.id], names[y]));
    }
    if HasEdge(b, g, a.id, y) {
      EdgeHasReference(b, g, a, y);
    }
  }

  lemma EdgeHasReference(b: Bundle, g: FlowGraph, a: Action, y: string)
    requires UniqueIds(b) && IsDrawing(b, g) && a in b.actions && HasEdge(b, g, a.id, y)
    ensures exists r :: r in a.effectRefs && Leads(b, r, y)
  {
    hide Leads, FirstOperator, ShortIdOf, Names, UniqueIds, IsDrawing;
    var names := Names(b.actions);
    var e := Edge(names[a.id], names[y]);
    DrawnEdges(b, g, e);
    var c :| c in b.actions && EdgeOfAction(b, c, e);
    var r :| r in c.effectRefs && EdgeOfRef(b, names[c.id], r, e);
    var z := TargetOfRef(b, names[c.id], r, e);
    NamesAreInjective(b, c.id, a.id);
    NamesAreInjective(b, z, y);
    IdsIdentify(b, c, a);
  }

  lemma TargetOfRef(b: Bundle, from: string, r: string, e: Edge) returns (z: string)
    requires EdgeOfRef(b, from, r, e)
    ensures z in Names(b.actions) && Leads(b, r, z) && e == Edge(from, Names(b.actions)[z])
  {
    z :| Leads(b, r, z) && e == Edge(from, Names(b.actions)[z]);
  }

  lemma IdsIdentify(b: Bundle, a: Action, c: Action)
    requires UniqueIds(b) && a in b.actions && c in b.actions && a.id == c.id
    ensures a == c
  {}

  lemma LeadsToNames(b: Bundle, r: string, z: string)
    requires Leads(b, r, z)
    ensures z in Names(b.actions)
  {}

  /** An edge stands for a reference to the action or to an operator that refers to it. */
  lemma EdgeMeans(b: Bundle, g: FlowGraph, x: string, y: string)
    requires UniqueIds(b) && IsDrawing(b, g)
    ensures HasEdge(b, g, x, y) <==> IsAction(b, x) && IsAction(b, y) && OneHop(b, x, y)
  {
    NamedIffAction(b, x);
    NamedIffAction(b, y);
    hide Names, OperatorMap, Leads, IsDrawing, GraphOf, UniqueIds, FirstOperator;
    if IsAction(b, x) {
      var a := ActionMap(b.actions)[x];
      ActionLookup(b, a);
      EdgeHasOneSource(b, g, a, y);
      hide ActionMap, IsAction;
      forall r ensures Leads(b, r, y) <==> IsAction(b, y) && (y == r || (!IsAction(b, r) && y in GraphOf(b).succ(r))) {
        LeadsIsOneHop(b, r, y);
      }
    }
  }

  // ---- reachability on both sides

  /** The rule traversal leads from `x` to `y`. */
  ghost predicate WalkReaches(b: Bundle, x: string, y: string) {
    exists p :: IsWalk(GraphOf(b).succ, p) && p[0] == x && p[|p| - 1] == y
  }

  ghost predicate IsEdgeWalk(b: Bundle, g: FlowGraph, q: seq<string>) {
    q != [] && forall k :: 0 <= k < |q| - 1 ==> HasEdge(b, g, q[k], q[k + 1])
  }

  /** The drawing leads from the node of `x` to the node of `y`. */
  ghost predicate EdgesReach(b: Bundle, g: FlowGraph, x: string, y: string) {
    exists q :: IsEdgeWalk(b, g, q) && q[0] == x && q[|q| - 1] == y
  }

  /** A walk between two actions with only operators in between. */
  ghost predicate IsOperatorChain(b: Bundle, p: seq<string>) {
    && IsWalk(GraphOf(b).succ, p) && |p| >= 2
    && IsAction(b, p[0]) && IsAction(b, p[|p| - 1])
    && forall k :: 0 < k < |p| - 1 ==> !IsAction(b, p[k])
  }

  /** Two actions joined by one traversal step, or by two through an operator. */
  ghost predicate Hop(b: Bundle, x: string, y: string) { IsAction(b, x) && IsAction(b, y) && OneHop(b, x, y) }

  ghost predicate IsHopWalk(b: Bundle, q: seq<string>) {
    q != [] && forall k :: 0 <= k < |q| - 1 ==> Hop(b, q[k], q[k + 1])
  }

  ghost predicate HopsReach(b: Bundle, x: string, y: string) {
    exists q :: IsHopWalk(b, q) && q[0] == x && q[|q| - 1] == y
  }

  /** Wherever two or more operators follow one another, hops lead from end to end as well. */
  ghost predicate LongChainsHaveHops(b: Bundle) {
    forall p :: IsOperatorChain(b, p) && |p| >= 4 ==> HopsReach(b, p[0], p[|p| - 1])
  }

  /** The drawing connects what hops connect. */
  lemma EdgesReachIff(b: Bundle, g: FlowGraph, x: string, y: string)
    requires UniqueIds(b) && IsDrawing(b, g)
    ensures EdgesReach(b, g, x, y) <==> HopsReach(b, x, y)
  {
    hide HasEdge, Hop, UniqueIds, IsDrawing;
    forall q: seq<string> ensures IsEdgeWalk(b, g, q) <==> IsHopWalk(b, q) {
      forall k | 0 <= k < |q| - 1 ensures HasEdge(b, g, q[k], q[k + 1]) <==> Hop(b, q[k], q[k + 1]) {
        EdgeIffHop(b, g, q[k], q[k + 1]);
      }
    }
  }

  lemma EdgeIffHop(b: Bundle, g: FlowGraph, x: string, y: string)
    requires UniqueIds(b) && IsDrawing(b, g)
    ensures HasEdge(b, g, x, y) <==> Hop(b, x, y)
  {
    EdgeMeans(b, g, x, y);
    hide HasEdge, UniqueIds, IsDrawing, OneHop, IsAction;
  }

  lemma HopsReachTransitive(b: Bundle, x: string, y: string, z: string)
    requires HopsReach(b, x, y) && HopsReach(b, y, z)
    ensures HopsReach(b, x, z)
  {
    hide Hop;
    var q :| IsHopWalk(b, q) && q[0] == x && q[|q| - 1] == y;
    var r :| IsHopWalk(b, r) && r[0] == y && r[|r| - 1] == z;
    var s := q + r[1..];
    forall k | 0 <= k < |s| - 1 ensures Hop(b, s[k], s[k + 1]) {
      if k < |q| - 1 {
        assert s[k] == q[k] && s[k + 1] == q[k + 1];
      } else {
        assert s[k] == r[k - |q| + 1] && s[k + 1] == r[k - |q| + 2];
      }
    }
    assert IsHopWalk(b, s) && s[0] == x && s[|s| - 1] == z;
  }

  lemma WalksConcatenate(succ: string -> seq<string>, p: seq<string>, r: seq<string>)
    requires IsWalk(succ, p) && IsWalk(succ, r) && p[|p| - 1] == r[0]
    ensures IsWalk(succ, p + r[1..])
    ensures (p + r[1..])[0] == p[0] && (p + r[1..])[|p + r[1..]| - 1] == r[|r| - 1]
  {
    var s := p + r[1..];
    forall k | 0 <= k < |s| - 1 ensures s[k + 1] in succ(s[k]) {
      if k < |p| - 1 {
        assert s[k] == p[k] && s[k + 1] == p[k + 1];
      } else {
        assert s[k] == r[k - |p| + 1] && s[k + 1] == r[k - |p| + 2];
      }
    }
  }

  /** What the drawing connects the rule traversal reaches, for every bundle with unique ids. */
  lemma {:induction false} DrawnImpliesReached(b: Bundle, g: FlowGraph, q: seq<string>)
    requires UniqueIds(b) && IsDrawing(b, g) && IsEdgeWalk(b, g, q)
    ensures WalkReaches(b, q[0], q[|q| - 1])
    decreases |q|
  {
    hide UniqueIds, IsDrawing, GraphOf, HasEdge;
    var succ := GraphOf(b).succ;
    if |q| == 1 {
      assert IsWalk(succ, q);
    } else {
      var init, x, y := q[..|q| - 1], q[|q| - 2], q[|q| - 1];
      DrawnImpliesReached(b, g, init);
      var p :| IsWalk(succ, p) && p[0] == q[0] && p[|p| - 1] == x;
      assert HasEdge(b, g, x, y);
      EdgeMeans(b, g, x, y);
      var hop := HopAsWalk(b, x, y);
      WalksConcatenate(succ, p, hop);
    }
  }

  lemma HopAsWalk(b: Bundle, x: string, y: string) returns (hop: seq<string>)
    requires OneHop(b, x, y)
    ensures IsWalk(GraphOf(b).succ, hop) && hop[0] == x && hop[|hop| - 1] == y
  {
    hide GraphOf;
    var succ := GraphOf(b).succ;
    if y in succ(x) {
      hop := [x, y];
    } else {
      var r :| r in succ(x) && y in succ(r);
      hop := [x, r, y];
    }
  }

  /** Chains with at most one operator are hops. */
  lemma ChainsHop(b: Bundle, p: seq<string>)
    requires LongChainsHaveHops(b) && IsOperatorChain(b, p)
    ensures HopsReach(b, p[0], p[|p| - 1])
  {
    hide GraphOf, IsAction, OneHop;
    if |p| <= 3 {
      ShortChainsAreHops(b, p);
      var q := [p[0], p[|p| - 1]];
      assert IsHopWalk(b, q) && q[0] == p[0] && q[|q| - 1] == p[|p| - 1];
    }
  }

  /** Walks between actions decompose into operator chains. */
  lemma {:induction false} WalksHop(b: Bundle, p: seq<string>)
    requires LongChainsHaveHops(b) && IsWalk(GraphOf(b).succ, p) && IsAction(b, p[0]) && IsAction(b, p[|p| - 1])
    ensures HopsReach(b, p[0], p[|p| - 1])
    decreases |p|
  {
    hide IsAction, GraphOf, Hop, LongChainsHaveHops;
    if |p| == 1 {
      assert IsHopWalk(b, p);
    } else {
      var k := LastActionBefore(b, p, |p| - 1);
      var chain := p[k..];
      assert IsOperatorChain(b, chain);
      ChainsHop(b, chain);
      WalksHop(b, p[..k + 1]);
      HopsReachTransitive(b, p[0], p[k], p[|p| - 1]);
    }
  }

  lemma LastActionBefore(b: Bundle, p: seq<string>, n: nat) returns (k: nat)
    requires 0 < n < |p| && IsAction(b, p[0])
    ensures k < n && IsAction(b, p[k]) && forall j :: k < j < n ==> !IsAction(b, p[j])
  {
    k := n - 1;
    while !IsAction(b, p[k])
      invariant k < n && forall j :: k < j < n ==> !IsAction(b, p[j])
      decreases k
    {
      k := k - 1;
    }
  }

  /**
    With unique ids, the drawing connects exactly the actions the rule traversal connects if and only if
    hops lead across every chain of two or more operators: a condition on the bundle alone.
   */
  lemma DrawingAgreesIff(b: Bundle, g: FlowGraph)
    requires UniqueIds(b) && IsDrawing(b, g)
    ensures (forall x, y :: IsAction(b, x) && IsAction(b, y) ==> (WalkReaches(b, x, y) <==> EdgesReach(b, g, x, y)))
            <==> LongChainsHaveHops(b)
  {
    hide UniqueIds, IsDrawing, GraphOf, HasEdge, IsAction, Hop;
    if LongChainsHaveHops(b) {
      forall x, y | IsAction(b, x) && IsAction(b, y) ensures WalkReaches(b, x, y) <==> EdgesReach(b, g, x, y) {
        if p :| IsWalk(GraphOf(b).succ, p) && p[0] == x && p[|p| - 1] == y {
          WalksHop(b, p);
          EdgesReachIff(b, g, x, y);
        }
        if q :| IsEdgeWalk(b, g, q) && q[0] == x && q[|q| - 1] == y {
          DrawnImpliesReached(b, g, q);
        }
      }
    }
    if forall x, y :: IsAction(b, x) && IsAction(b, y) ==> (WalkReaches(b, x, y) <==> EdgesReach(b, g, x, y)) {
      forall p | IsOperatorChain(b, p) && |p| >= 4 ensures HopsReach(b, p[0], p[|p| - 1]) {
        assert WalkReaches(b, p[0], p[|p| - 1]);
        EdgesReachIff(b, g, p[0], p[|p| - 1]);
      }
    }
  }

  /** No operator refers to another operator. */
  ghost predicate NoOperatorToOperator(b: Bundle) {
    forall o, r :: o in b.operators && r in o.effectRefs ==> IsAction(b, r) || r !in OperatorMap(b.operators)
  }

  /** A non-action with a successor is an operator, and with the premise its successor leads nowhere but to actions. */
  lemma OperatorStep(b: Bundle, r: string, s: string)
    requires !IsAction(b, r) && s in GraphOf(b).succ(r)
    ensures r in OperatorMap(b.operators)
    ensures NoOperatorToOperator(b) ==> IsAction(b, s) || s !in OperatorMap(b.operators)
  {
    assert r in OperatorMap(b.operators) ==> OperatorMap(b.operators)[r] in b.operators;
  }

  lemma ChainsAreShort(b: Bundle, p: seq<string>)
    requires NoOperatorToOperator(b) && IsOperatorChain(b, p)
    ensures |p| <= 3
  {
    hide GraphOf, IsAction, NoOperatorToOperator, OperatorMap;
    if |p| > 3 {
      OperatorStep(b, p[1], p[2]);
      OperatorStep(b, p[2], p[3]);
    }
  }

  lemma ShortChainsAreHops(b: Bundle, p: seq<string>)
    requires IsOperatorChain(b, p) && |p| <= 3
    ensures OneHop(b, p[0], p[|p| - 1])
  {
    hide GraphOf, IsAction;
    assert p[1] in GraphOf(b).succ(p[0]);
  }

  /** Where no operator refers to another there are no long chains. */
  lemma SingleHopsSuffice(b: Bundle)
    requires NoOperatorToOperator(b)
    ensures LongChainsHaveHops(b)
  {
    hide GraphOf, IsAction, NoOperatorToOperator, Hop;
    forall p | IsOperatorChain(b, p) ensures |p| <= 3 {
      ChainsAreShort(b, p);
    }
  }

  lemma ReachableFromStarts(b: Bundle, y: string)
    ensures Reachable(GraphOf(b), y) <==> exists s :: s in StartIds(b) && WalkReaches(b, s, y)
  {
    hide ActionMap, OperatorMap, StartIds, Effects;
    var g := GraphOf(b);
    if Reachable(g, y) {
      var n: nat :| ReachesIn(g, y, n);
      var p :| IsWalk(g.succ, p) && p[0] in g.starts && |p| == n + 1 && p[n] == y;
      assert WalkReaches(b, p[0], y);
    }
    if s :| s in StartIds(b) && WalkReaches(b, s, y) {
      var p :| IsWalk(GraphOf(b).succ, p) && p[0] == s && p[|p| - 1] == y;
      assert ReachesIn(g, y, |p| - 1);
    }
  }

  /**
    When starts are actions and no operator refers to another, the actions reachable in the
    drawing are those the rule traversal reaches.
   */
  lemma DrawingMatchesRule(b: Bundle, g: FlowGraph, y: string)
    requires UniqueIds(b) && IsDrawing(b, g) && NoOperatorToOperator(b) && IsAction(b, y)
    requires forall s :: s in StartIds(b) ==> IsAction(b, s)
    ensures Reachable(GraphOf(b), y) <==> exists s :: s in StartIds(b) && EdgesReach(b, g, s, y)
  {
    ReachableFromStarts(b, y);
    SingleHopsSuffice(b);
    DrawingAgreesIff(b, g);
    hide UniqueIds, IsDrawing, GraphOf, IsAction, NoOperatorToOperator, EdgesReach, WalkReaches, Reachable, StartIds;
    if s :| s in StartIds(b) && WalkReaches(b, s, y) {
      assert EdgesReach(b, g, s, y);
    }
    if s :| s in StartIds(b) && EdgesReach(b, g, s, y) {
      assert WalkReaches(b, s, y);
    }
  }

  /** Action `a`, operator `o`, operator `p`, action `c`, in a row. */
  function TwoOperators(): Bundle {
    Bundle(Some(Flow("flow", "flow", ["a"])),
           [Action("a", "first", None, Some("T1"), ["o"]), Action("c", "last", None, Some("T2"), [])],
           [Operator("o", "AND", ["p"]), Operator("p", "OR", ["c"])])
  }

  lemma TwoOperatorsLookups()
    ensures UniqueIds(TwoOperators())
    ensures var b := TwoOperators();
            && (forall id :: IsAction(b, id) <==> id == "a" || id == "c")
            && GraphOf(b).succ("a") == ["o"] && GraphOf(b).succ("o") == ["p"] && GraphOf(b).succ("p") == ["c"]
  {
    var b := TwoOperators();
    assert b.actions[..1] == [b.actions[0]] && b.operators[..1] == [b.operators[0]];
    assert ActionMap(b.actions) == map["a" := b.actions[0], "c" := b.actions[1]];
    assert OperatorMap(b.operators) == map["o" := b.operators[0], "p" := b.operators[1]];
  }

  lemma TwoOperatorsEnds()
    ensures "a" in StartIds(TwoOperators())
    ensures var b := TwoOperators(); IsAction(b, "c") && ActionMap(b.actions)["c"].techniqueId == Some("T2")
  {
    var b := TwoOperators();
    assert b.actions[..1] == [b.actions[0]];
    assert StartIds(b)[0] == "a";
  }

  /** Two operators in a row: the rule traversal reaches an action that the drawing leaves unconnected. */
  lemma OperatorChainsAreLost(g: FlowGraph)
    requires IsDrawing(TwoOperators(), g)
    ensures IsTarget(TwoOperators(), "c") && !EdgesReach(TwoOperators(), g, "a", "c")
  {
    var b := TwoOperators();
    TwoOperatorsLookups();
    TwoOperatorsEnds();
    hide UniqueIds, IsDrawing, GraphOf, HasEdge, ActionMap, StartIds, TwoOperators, Reachable;
    var p := ["a", "o", "p", "c"];
    assert IsWalk(GraphOf(b).succ, p) && p[0] == "a" && p[|p| - 1] == "c";
    ReachableFromStarts(b, "c");
    if q :| IsEdgeWalk(b, g, q) && q[0] == "a" && q[|q| - 1] == "c" {
      EdgeMeans(b, g, q[0], q[1]);
    }
  }
}
