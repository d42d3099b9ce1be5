/**
  Attack Flow bundles as correlation rules: a breadth-first walk over actions and
  pass-through operators, over graphs that may have cycles and dangling references.
 */
module AttackFlow {
  import opened Wrappers
  import opened Sequences
  import opened Graphs

  datatype Action = Action(
    id: string,
    name: string,
    tacticId: Option<string>,
    techniqueId: Option<string>,
    effectRefs: seq<string>)

  datatype Operator = Operator(id: string, operator: string, effectRefs: seq<string>)

  datatype Flow = Flow(id: string, name: string, startRefs: seq<string>)

  datatype Bundle = Bundle(flow: Option<Flow>, actions: seq<Action>, operators: seq<Operator>)

  datatype AttrEquals = AttrEquals(key: string, value: string)

  datatype Clause = Clause(source: string, requiredTag: string, attrPredicates: seq<AttrEquals>)

  datatype Rule = Rule(id: string, title: string, severity: string, clauses: seq<Clause>)

  // ---- the bundle as a graph

  /** Lookup by id; of two objects with one id the later wins. */
  function ActionMap(actions: seq<Action>): (m: map<string, Action>)
    ensures forall id :: id in m ==> m[id].id == id && m[id] in actions
    ensures forall a :: a in actions ==> a.id in m
  {
    if actions == [] then map[]
    else
      var last := actions[|actions| - 1];
      assert actions == actions[..|actions| - 1] + [last];
      ActionMap(actions[..|actions| - 1])[last.id := last]
  }

  function OperatorMap(operators: seq<Operator>): (m: map<string, Operator>)
    ensures forall id :: id in m ==> m[id].id == id && m[id] in operators
    ensures forall o :: o in operators ==> o.id in m
  {
    if operators == [] then map[]
    else
      var last := operators[|operators| - 1];
      assert operators == operators[..|operators| - 1] + [last];
      OperatorMap(operators[..|operators| - 1])[last.id := last]
  }

  /** The ids an object leads to; unknown ids lead nowhere. */
  function Effects(actions: map<string, Action>, operators: map<string, Operator>, id: string): seq<string> {
    if id in actions then actions[id].effectRefs
    else if id in operators then operators[id].effectRefs
    else []
  }

  /** The flow's starts or, without a flow, the actions no action refers to. */
  function StartIds(b: Bundle): seq<string> {
    if b.flow.Some? then b.flow.value.startRefs
    else
      var referenced := set a, r | a in b.actions && r in a.effectRefs :: r;
      Map((a: Action) => a.id, Filter((a: Action) => a.id !in referenced, b.actions))
  }

  /** Without a flow the starts are exactly the ids of the actions that no action refers to. */
  lemma StartsWithoutFlow(b: Bundle, id: string)
    requires b.flow.None?
    ensures id in StartIds(b) <==>
            (exists a :: a in b.actions && a.id == id) && forall a :: a in b.actions ==> id !in a.effectRefs
  {
    var referenced := set a, r | a in b.actions && r in a.effectRefs :: r;
    var heads := Filter((a: Action) => a.id !in referenced, b.actions);
    var starts := Map((a: Action) => a.id, heads);
    if id in starts {
      var k :| 0 <= k < |starts| && starts[k] == id;
      assert heads[k] in heads;
    }
    if a :| a in heads && a.id == id {
      var k :| 0 <= k < |heads| && heads[k] == a;
      assert starts[k] == id;
    }
  }

  function GraphOf(b: Bundle): Graph<string> {
    var actions, operators := ActionMap(b.actions), OperatorMap(b.operators);
    Graph(StartIds(b), id => Effects(actions, operators, id))
  }

  /** A reachable action that carries a technique. */
  ghost predicate IsTarget(b: Bundle, id: string) {
    var actions := ActionMap(b.actions);
    id in actions && actions[id].techniqueId.Some? && Reachable(GraphOf(b), id)
  }

  /**
    `ordered` lists the targets of `b`, each once, by nondecreasing breadth-first distance `dist`.
   */
  ghost predicate IsTraversal(b: Bundle, ordered: seq<Action>, dist: seq<nat>) {
    var actions := ActionMap(b.actions);
    && |dist| == |ordered|
    && (forall k :: 0 <= k < |ordered| ==>
          && ordered[k].id in actions && ordered[k] == actions[ordered[k].id]
          && IsTarget(b, ordered[k].id) && DistanceIs(GraphOf(b), ordered[k].id, dist[k]))
    && (forall i, j :: 0 <= i < j < |ordered| ==> ordered[i].id != ordered[j].id && dist[i] <= dist[j])
    && (forall id :: IsTarget(b, id) ==> exists k :: 0 <= k < |ordered| && ordered[k].id == id)
  }

  /** Every id the bundle mentions; the walk never leaves it. */
  ghost function Mentioned(b: Bundle): set<string> {
    (set s | s in StartIds(b))
    + (set a, r | a in b.actions && r in a.effectRefs :: r)
    + (set o, r | o in b.operators && r in o.effectRefs :: r)
  }

  lemma EffectsAreMentioned(b: Bundle, id: string)
    ensures forall r :: r in GraphOf(b).succ(id) ==> r in Mentioned(b)
  {}

  /** `ordered` lists the visited technique-bearing actions, each once, by nondecreasing distance. */
  ghost predicate Collected(actions: map<string, Action>, dist: map<string, nat>, ordered: seq<Action>) {
    && (forall k :: 0 <= k < |ordered| ==>
          ordered[k].id in dist && ordered[k].id in actions && ordered[k] == actions[ordered[k].id]
          && ordered[k].techniqueId.Some?)
    && (forall i, j :: 0 <= i < j < |ordered| ==>
          ordered[i].id != ordered[j].id && dist[ordered[i].id] <= dist[ordered[j].id])
    && (forall id :: id in dist && id in actions && actions[id].techniqueId.Some? ==> Lists(ordered, id))
  }

  ghost predicate Lists(ordered: seq<Action>, id: string) {
    exists k :: 0 <= k < |ordered| && ordered[k].id == id
  }

  lemma ListsMore(ordered: seq<Action>, more: seq<Action>, id: string)
    requires Lists(ordered, id) || Lists(more, id)
    ensures Lists(ordered + more, id)
  {
    if k :| 0 <= k < |ordered| && ordered[k].id == id {
      assert (ordered + more)[k].id == id;
    } else {
      var k :| 0 <= k < |more| && more[k].id == id;
      assert (ordered + more)[|ordered| + k].id == id;
    }
  }

  /** What visiting `v` adds to the collected actions. */
  function Gain(actions: map<string, Action>, v: string): seq<Action> {
    if v in actions && actions[v].techniqueId.Some? then [actions[v]] else []
  }

  lemma CollectedGrows(actions: map<string, Action>, dist: map<string, nat>, ordered: seq<Action>, v: string,
                       level: nat)
    requires Collected(actions, dist, ordered) && v !in dist
    requires forall id :: id in actions ==> actions[id].id == id
    requires forall id :: id in dist ==> dist[id] <= level
    ensures Collected(actions, dist[v := level], ordered + Gain(actions, v))
  {
    var more := ordered + Gain(actions, v);
    forall id | id in dist[v := level] && id in actions && actions[id].techniqueId.Some? ensures Lists(more, id) {
      if id == v {
        assert Gain(actions, v)[0].id == v;
      }
      ListsMore(ordered, Gain(actions, v), id);
    }
  }

  /** The walk's invariant over the ghost traversal state. */
  ghost predicate Walking(b: Bundle, t: Traversal<string>, ordered: seq<Action>) {
    && Consistent(GraphOf(b), t)
    && Collected(ActionMap(b.actions), t.dist, ordered)
    && t.visited <= Mentioned(b) && (forall id :: id in t.queue ==> id in Mentioned(b))
  }

  lemma WalkingStarts(b: Bundle)
    ensures Walking(b, Start(GraphOf(b)), []) && Start(GraphOf(b)).queue == StartIds(b)
  {
    StartIsConsistent(GraphOf(b));
  }

  lemma WalkingDrops(b: Bundle, t: Traversal<string>, ordered: seq<Action>)
    requires Walking(b, t, ordered) && t.queue != [] && t.queue[0] in t.visited
    ensures |t.level| == |t.queue| && Walking(b, Dropped(t), ordered)
    ensures Dropped(t).visited == t.visited && Dropped(t).queue == t.queue[1..]
  {
    DroppedIsConsistent(GraphOf(b), t);
  }

  lemma WalkingVisits(b: Bundle, t: Traversal<string>, ordered: seq<Action>)
    requires Walking(b, t, ordered) && t.queue != [] && t.queue[0] !in t.visited
    ensures |t.level| == |t.queue|
    ensures var g, v := GraphOf(b), t.queue[0];
            && Walking(b, Expanded(g, t), ordered + Gain(ActionMap(b.actions), v))
            && Expanded(g, t).visited == t.visited + {v}
            && Expanded(g, t).queue == t.queue[1..] + Unvisited(t.visited + {v}, g.succ(v))
            && v in Mentioned(b)
  {
    var g, v := GraphOf(b), t.queue[0];
    hide ActionMap, OperatorMap, StartIds, Mentioned, Effects, GraphOf, Collected;
    ExpandedIsConsistent(g, t);
    CollectedGrows(ActionMap(b.actions), t.dist, ordered, v, t.level[0]);
    EffectsAreMentioned(b, v);
  }

  lemma WalkingEnds(b: Bundle, t: Traversal<string>, ordered: seq<Action>)
    requires Walking(b, t, ordered) && t.queue == []
    ensures exists dist :: IsTraversal(b, ordered, dist)
  {
    hide ActionMap, OperatorMap, StartIds, Mentioned, Effects, GraphOf, DistanceIs, Reachable;
    EmptyQueueIsComplete(GraphOf(b), t);
    var dist := seq(|ordered|, k requires 0 <= k < |ordered| => t.dist[ordered[k].id]);
    forall id | IsTarget(b, id) ensures exists k :: 0 <= k < |ordered| && ordered[k].id == id {
      assert Lists(ordered, id);
    }
    assert IsTraversal(b, ordered, dist);
  }

  lemma SuccessorsOf(b: Bundle, id: string)
    ensures GraphOf(b).succ(id) == Effects(ActionMap(b.actions), OperatorMap(b.operators), id)
  {}

  method OrderedActions(b: Bundle) returns (ordered: seq<Action>)
    ensures exists dist :: IsTraversal(b, ordered, dist)
  {
    var actions, operators := ActionMap(b.actions), OperatorMap(b.operators);
    ghost var g := GraphOf(b);
    ghost var t := Start(g);
    WalkingStarts(b);
    var visited: set<string>, queue := {}, StartIds(b);
    ordered := [];
    hide ActionMap, OperatorMap, StartIds, Mentioned, GraphOf, Walking, Expanded, Dropped, IsTraversal;
    while queue != []
      invariant Walking(b, t, ordered) && t.visited == visited && t.queue == queue
      decreases Mentioned(b) - visited, |queue|
    {
      var current := queue[0];
      queue := queue[1..];
      if current in visited {
        WalkingDrops(b, t, ordered);
        t := Dropped(t);
        continue;
      }
      WalkingVisits(b, t, ordered);
      SuccessorsOf(b, current);
      t := Expanded(g, t);
      visited := visited + {current};
      ghost var before := ordered;
      if current in actions {
        var action := actions[current];
        if action.techniqueId.Some? {
          ordered := ordered + [action];
        }
        queue := Enqueue(queue, visited, action.effectRefs);
      } else if current in operators {
        queue := Enqueue(queue, visited, operators[current].effectRefs);
      } else {
        assert Unvisited(visited, []) == [];
      }
      assert ordered == before + Gain(actions, current);
    }
    WalkingEnds(b, t, ordered);
  }

  method Enqueue(queue: seq<string>, visited: set<string>, refs: seq<string>) returns (r: seq<string>)
    ensures r == queue + Unvisited(visited, refs)
  {
    r := queue;
    for k := 0 to |refs|
      invariant r == queue + Unvisited(visited, refs[..k])
    {
      assert refs[..k + 1] == refs[..k] + [refs[k]];
      FilterAppend((w: string) => w !in visited, refs[..k], [refs[k]]);
      if refs[k] !in visited {
        r := r + [refs[k]];
      }
    }
    assert refs[..|refs|] == refs;
  }

  // ---- the rule

  function ClauseFor(a: Action): Clause {
    Clause("attack-flow",
           "technique:" + (if a.techniqueId.Some? then a.techniqueId.value else ""),
           if a.tacticId.Some? then [AttrEquals("tactic_id", a.tacticId.value)] else [])
  }

  function RuleFor(b: Bundle, ordered: seq<Action>): Rule {
    Rule("attack-flow." + (if b.flow.Some? then b.flow.value.id else "unknown"),
         if b.flow.Some? then b.flow.value.name else "Attack Flow",
         "high",
         Map(ClauseFor, ordered))
  }

  method ClausesFor(ordered: seq<Action>) returns (clauses: seq<Clause>)
    requires forall a :: a in ordered ==> a.techniqueId.Some?
    ensures clauses == Map(ClauseFor, ordered)
  {
    clauses := [];
    for k := 0 to |ordered|
      invariant |clauses| == k && forall i :: 0 <= i < k ==> clauses[i] == ClauseFor(ordered[i])
    {
      var action := ordered[k];
      assert action in ordered;
      var predicates: seq<AttrEquals> := [];
      if action.tacticId.Some? {
        predicates := predicates + [AttrEquals("tactic_id", action.tacticId.value)];
      }
      clauses := clauses + [Clause("attack-flow", "technique:" + action.techniqueId.value, predicates)];
    }
  }

  lemma TraversalIsEmptyIff(b: Bundle, ordered: seq<Action>, dist: seq<nat>)
    requires IsTraversal(b, ordered, dist)
    ensures ordered == [] <==> !exists id :: IsTarget(b, id)
    ensures forall a :: a in ordered ==> a.techniqueId.Some?
  {
    hide ActionMap, GraphOf, Reachable, DistanceIs;
    if ordered != [] {
      assert IsTarget(b, ordered[0].id);
    }
  }

  lemma NothingWithoutTechniques(b: Bundle)
    requires forall a :: a in b.actions ==> a.techniqueId.None?
    ensures IsTraversal(b, [], [])
  {
    hide GraphOf, Reachable, DistanceIs;
  }

  // ---- the same in the fields of the bundle

  /** The `k`th action is the one its id stands for: the last with that id. */
  ghost predicate DefinesAction(b: Bundle, k: int, id: string) {
    && 0 <= k < |b.actions| && b.actions[k].id == id
    && forall j :: k < j < |b.actions| ==> b.actions[j].id != id
  }

  ghost predicate DefinesOperator(b: Bundle, k: int, id: string) {
    && 0 <= k < |b.operators| && b.operators[k].id == id
    && forall j :: k < j < |b.operators| ==> b.operators[j].id != id
  }

  ghost predicate NamesAction(b: Bundle, id: string) { exists a :: a in b.actions && a.id == id }

  /** The action of that id refers to `y` or, if there is none, the operator of that id does. */
  ghost predicate RefersTo(b: Bundle, x: string, y: string) {
    || (exists k :: DefinesAction(b, k, x) && y in b.actions[k].effectRefs)
    || (!NamesAction(b, x) && exists k :: DefinesOperator(b, k, x) && y in b.operators[k].effectRefs)
  }

  /** All start references of the flow or, without one, the ids of the actions no action refers to. */
  ghost predicate IsStart(b: Bundle, id: string) {
    if b.flow.Some? then id in b.flow.value.startRefs
    else NamesAction(b, id) && forall a :: a in b.actions ==> id !in a.effectRefs
  }

  /** A walk along references from a start. */
  ghost predicate IsTrail(b: Bundle, p: seq<string>) {
    p != [] && IsStart(b, p[0]) && forall k :: 0 <= k < |p| - 1 ==> RefersTo(b, p[k], p[k + 1])
  }

  ghost predicate TrailsTo(b: Bundle, id: string, n: nat) {
    exists p :: IsTrail(b, p) && |p| == n + 1 && p[n] == id
  }

  /** The id stands for the technique-bearing action `a`, and some trail leads to it. */
  ghost predicate IsReachedTechnique(b: Bundle, id: string, a: Action) {
    && a.techniqueId.Some?
    && (exists k :: DefinesAction(b, k, id) && b.actions[k] == a)
    && exists n: nat :: TrailsTo(b, id, n)
  }

  ghost predicate IsShortestTrail(b: Bundle, id: string, n: nat) {
    TrailsTo(b, id, n) && forall m: nat :: TrailsTo(b, id, m) ==> n <= m
  }

  ghost predicate ClauseSpells(c: Clause, a: Action) {
    && a.techniqueId.Some?
    && c.source == "attack-flow" && c.requiredTag == "technique:" + a.techniqueId.value
    && c.attrPredicates == if a.tacticId.Some? then [AttrEquals("tactic_id", a.tacticId.value)] else []
  }

  /** The clause is that of the reached technique `id`. */
  ghost predicate IsClauseOf(b: Bundle, c: Clause, id: string) {
    exists a :: IsReachedTechnique(b, id, a) && ClauseSpells(c, a)
  }

  /** The clauses spell the reached techniques `ids`, each once and all of them, by shortest trail. */
  ghost predicate ClausesSpell(b: Bundle, clauses: seq<Clause>, ids: seq<string>, dist: seq<nat>) {
    && |ids| == |clauses| == |dist|
    && (forall k :: 0 <= k < |ids| ==> IsShortestTrail(b, ids[k], dist[k]) && IsClauseOf(b, clauses[k], ids[k]))
    && (forall i, j :: 0 <= i < j < |ids| ==> ids[i] != ids[j] && dist[i] <= dist[j])
    && (forall id, a :: IsReachedTechnique(b, id, a) ==> id in ids)
  }

  ghost predicate IsRuleOf(b: Bundle, rule: Rule) {
    && rule.id == "attack-flow." + (if b.flow.Some? then b.flow.value.id else "unknown")
    && rule.title == (if b.flow.Some? then b.flow.value.name else "Attack Flow")
    && rule.severity == "high"
    && exists ids, dist :: ClausesSpell(b, rule.clauses, ids, dist)
  }

  lemma {:induction false} LastAction(actions: seq<Action>, id: string) returns (k: nat)
    requires exists i :: 0 <= i < |actions| && actions[i].id == id
    ensures k < |actions| && actions[k].id == id && forall j :: k < j < |actions| ==> actions[j].id != id
  {
    var n := |actions| - 1;
    if actions[n].id == id {
      k := n;
    } else {
      var i :| 0 <= i < |actions| && actions[i].id == id;
      assert actions[..n][i].id == id;
      k := LastAction(actions[..n], id);
      forall j | k < j < |actions| ensures actions[j].id != id {
        assert j < n ==> actions[..n][j].id != id;
      }
    }
  }

  lemma {:induction false} LastOperator(operators: seq<Operator>, id: string) returns (k: nat)
    requires exists i :: 0 <= i < |operators| && operators[i].id == id
    ensures k < |operators| && operators[k].id == id && forall j :: k < j < |operators| ==> operators[j].id != id
  {
    var n := |operators| - 1;
    if operators[n].id == id {
      k := n;
    } else {
      var i :| 0 <= i < |operators| && operators[i].id == id;
      assert operators[..n][i].id == id;
      k := LastOperator(operators[..n], id);
      forall j | k < j < |operators| ensures operators[j].id != id {
        assert j < n ==> operators[..n][j].id != id;
      }
    }
  }

  /** The map holds the last action of an id. */
  lemma {:induction false} LastActionWins(actions: seq<Action>, k: nat)
    requires k < |actions| && forall j :: k < j < |actions| ==> actions[j].id != actions[k].id
    ensures actions[k].id in ActionMap(actions) && ActionMap(actions)[actions[k].id] == actions[k]
  {
    var init := actions[..|actions| - 1];
    if k < |init| {
      assert init[k] == actions[k];
      LastActionWins(init, k);
    }
  }

  lemma {:induction false} LastOperatorWins(operators: seq<Operator>, k: nat)
    requires k < |operators| && forall j :: k < j < |operators| ==> operators[j].id != operators[k].id
    ensures operators[k].id in OperatorMap(operators) && OperatorMap(operators)[operators[k].id] == operators[k]
  {
    var init := operators[..|operators| - 1];
    if k < |init| {
      assert init[k] == operators[k];
      LastOperatorWins(init, k);
    }
  }

  lemma ActionOfId(b: Bundle, id: string)
    ensures id in ActionMap(b.actions) <==> NamesAction(b, id)
    ensures forall k :: DefinesAction(b, k, id) ==>
              id in ActionMap(b.actions) && ActionMap(b.actions)[id] == b.actions[k]
    ensures id in ActionMap(b.actions) ==>
              exists k :: DefinesAction(b, k, id) && b.actions[k] == ActionMap(b.actions)[id]
  {
    hide ActionMap;
    forall k | DefinesAction(b, k, id) ensures id in ActionMap(b.actions) && ActionMap(b.actions)[id] == b.actions[k] {
      LastActionWins(b.actions, k);
    }
    if id in ActionMap(b.actions) {
      var k := LastAction(b.actions, id);
      assert DefinesAction(b, k, id);
    }
  }

  lemma OperatorOfId(b: Bundle, id: string)
    ensures forall k :: DefinesOperator(b, k, id) ==>
              id in OperatorMap(b.operators) && OperatorMap(b.operators)[id] == b.operators[k]
    ensures id in OperatorMap(b.operators) ==>
              exists k :: DefinesOperator(b, k, id) && b.operators[k] == OperatorMap(b.operators)[id]
  {
    hide OperatorMap;
    forall k | DefinesOperator(b, k, id)
      ensures id in OperatorMap(b.operators) && OperatorMap(b.operators)[id] == b.operators[k]
    {
      LastOperatorWins(b.operators, k);
    }
    if id in OperatorMap(b.operators) {
      var k := LastOperator(b.operators, id);
      assert DefinesOperator(b, k, id);
    }
  }

  /** The edges of the graph are the references of the bundle. */
  lemma SuccessorsRefer(b: Bundle, x: string, y: string)
    ensures y in GraphOf(b).succ(x) <==> RefersTo(b, x, y)
  {
    SuccessorsOf(b, x);
    ActionOfId(b, x);
    OperatorOfId(b, x);
    hide ActionMap, OperatorMap, GraphOf, DefinesAction, DefinesOperator, NamesAction;
  }

  /** The starts of the graph are those of the bundle. */
  lemma StartsAre(b: Bundle, id: string)
    ensures id in GraphOf(b).starts <==> IsStart(b, id)
  {
    if b.flow.None? {
      StartsWithoutFlow(b, id);
    }
  }

  lemma TrailIsWalk(b: Bundle, p: seq<string>)
    ensures IsTrail(b, p) <==> IsWalk(GraphOf(b).succ, p) && p[0] in GraphOf(b).starts
  {
    hide GraphOf, RefersTo, IsStart;
    forall k | 0 <= k < |p| - 1 ensures p[k + 1] in GraphOf(b).succ(p[k]) <==> RefersTo(b, p[k], p[k + 1]) {
      SuccessorsRefer(b, p[k], p[k + 1]);
    }
    if p != [] {
      StartsAre(b, p[0]);
    }
  }

  lemma TrailsReach(b: Bundle, id: string, n: nat)
    ensures TrailsTo(b, id, n) <==> ReachesIn(GraphOf(b), id, n)
  {
    hide GraphOf, IsTrail;
    forall p ensures IsTrail(b, p) <==> IsWalk(GraphOf(b).succ, p) && p[0] in GraphOf(b).starts {
      TrailIsWalk(b, p);
    }
  }

  /** The targets of the traversal in the fields of the bundle, from every start. */
  lemma TargetIff(b: Bundle, id: string)
    ensures IsTarget(b, id) <==> exists a :: IsReachedTechnique(b, id, a)
    ensures forall a :: IsReachedTechnique(b, id, a) ==> id in ActionMap(b.actions) && ActionMap(b.actions)[id] == a
    ensures IsTarget(b, id) ==> IsReachedTechnique(b, id, ActionMap(b.actions)[id])
  {
    ActionOfId(b, id);
    hide ActionMap, GraphOf, DefinesAction, TrailsTo, ReachesIn;
    forall n: nat ensures TrailsTo(b, id, n) <==> ReachesIn(GraphOf(b), id, n) {
      TrailsReach(b, id, n);
    }
    if IsTarget(b, id) {
      assert IsReachedTechnique(b, id, ActionMap(b.actions)[id]);
    }
  }

  lemma ClauseOfTraversal(b: Bundle, ordered: seq<Action>, dist: seq<nat>, k: nat)
    requires IsTraversal(b, ordered, dist) && k < |ordered|
    ensures IsShortestTrail(b, ordered[k].id, dist[k])
    ensures IsReachedTechnique(b, ordered[k].id, ordered[k]) && ClauseSpells(ClauseFor(ordered[k]), ordered[k])
  {
    hide ActionMap, GraphOf, IsTarget, DistanceIs, IsShortestTrail, IsReachedTechnique;
    TargetIff(b, ordered[k].id);
    ShortestIsDistance(b, ordered[k].id, dist[k]);
    TechniqueOf(b, ordered[k].id, ordered[k]);
  }

  lemma TraversalListsAll(b: Bundle, ordered: seq<Action>, dist: seq<nat>, id: string, a: Action)
    requires IsTraversal(b, ordered, dist) && IsReachedTechnique(b, id, a)
    ensures exists k :: 0 <= k < |ordered| && ordered[k].id == id
  {
    hide ActionMap, GraphOf, IsTarget, DistanceIs, IsReachedTechnique;
    TargetIff(b, id);
  }

  lemma TraversalSpellsClauses(b: Bundle, ordered: seq<Action>, dist: seq<nat>, ids: seq<string>)
    requires IsTraversal(b, ordered, dist)
    requires |ids| == |ordered| && forall k :: 0 <= k < |ids| ==> ids[k] == ordered[k].id
    ensures ClausesSpell(b, Map(ClauseFor, ordered), ids, dist)
  {
    var clauses := Map(ClauseFor, ordered);
    hide IsShortestTrail, IsReachedTechnique, ClauseSpells, Map, ClauseFor, ActionMap, GraphOf, IsTarget, DistanceIs;
    forall k | 0 <= k < |ids| ensures IsShortestTrail(b, ids[k], dist[k]) && IsClauseOf(b, clauses[k], ids[k]) {
      ClauseOfTraversal(b, ordered, dist, k);
      assert clauses[k] == ClauseFor(ordered[k]);
    }
    forall id, a | IsReachedTechnique(b, id, a) ensures id in ids {
      TraversalListsAll(b, ordered, dist, id, a);
      var k :| 0 <= k < |ordered| && ordered[k].id == id;
      assert ids[k] == id;
    }
    forall i, j | 0 <= i < j < |ids| ensures ids[i] != ids[j] && dist[i] <= dist[j] {
      assert ids[i] == ordered[i].id && ids[j] == ordered[j].id;
    }
    assert |dist| == |ids| == |clauses|;
    hide IsTraversal, IsClauseOf;
  }

  /** A traversal's rule spells out the bundle. */
  lemma TraversalSpells(b: Bundle, ordered: seq<Action>, dist: seq<nat>)
    requires IsTraversal(b, ordered, dist)
    ensures IsRuleOf(b, RuleFor(b, ordered))
  {
    var ids := seq(|ordered|, k requires 0 <= k < |ordered| => ordered[k].id);
    TraversalSpellsClauses(b, ordered, dist, ids);
    hide ClausesSpell, IsTraversal, Map;
    assert ClausesSpell(b, RuleFor(b, ordered).clauses, ids, dist);
  }

  /** A reached technique has its clause. */
  lemma ReachedHasClause(b: Bundle, rule: Rule, id: string, a: Action)
    requires IsRuleOf(b, rule) && IsReachedTechnique(b, id, a)
    ensures exists c :: c in rule.clauses && IsClauseOf(b, c, id)
  {
    hide IsReachedTechnique, IsShortestTrail, IsClauseOf;
    var ids, dist :| ClausesSpell(b, rule.clauses, ids, dist);
    var i :| 0 <= i < |ids| && ids[i] == id;
    assert rule.clauses[i] in rule.clauses;
  }

  /** Every technique-bearing action that the flow starts with is reached, whatever other starts there are. */
  lemma StartIsReached(b: Bundle, id: string, k: int)
    requires b.flow.Some? && id in b.flow.value.startRefs
    requires DefinesAction(b, k, id) && b.actions[k].techniqueId.Some?
    ensures IsReachedTechnique(b, id, b.actions[k])
  {
    var p := [id];
    assert IsTrail(b, p) && p[0] == id;
    assert TrailsTo(b, id, 0);
    hide TrailsTo;
  }

  lemma TechniqueOf(b: Bundle, id: string, a: Action)
    requires IsReachedTechnique(b, id, a)
    ensures a.techniqueId.Some?
  {}

  lemma TargetsAreReached(b: Bundle)
    ensures (exists id :: IsTarget(b, id)) <==> exists id, a :: IsReachedTechnique(b, id, a)
  {
    hide IsTarget, IsReachedTechnique;
    forall id ensures IsTarget(b, id) <==> exists a :: IsReachedTechnique(b, id, a) {
      TargetIff(b, id);
    }
    if id :| IsTarget(b, id) {
      assert exists a :: IsReachedTechnique(b, id, a);
    }
    if id, a :| IsReachedTechnique(b, id, a) {
      assert IsTarget(b, id);
    }
  }

  lemma ShortestIsDistance(b: Bundle, id: string, n: nat)
    ensures IsShortestTrail(b, id, n) <==> DistanceIs(GraphOf(b), id, n)
  {
    hide GraphOf, TrailsTo, ReachesIn;
    forall m: nat ensures TrailsTo(b, id, m) <==> ReachesIn(GraphOf(b), id, m) {
      TrailsReach(b, id, m);
    }
  }

  /**
    One rule whose clauses spell the technique-bearing actions that some trail leads to, each once and
    by nondecreasing distance; no rule exactly when there is no such action.
   */
  method BundleToCorrelationRules(b: Bundle) returns (rules: seq<Rule>)
    ensures |rules| <= 1 && (rules == [] <==> !exists id, a :: IsReachedTechnique(b, id, a))
    ensures forall rule :: rule in rules ==> IsRuleOf(b, rule)
  {
    hide IsTraversal, IsTarget, Map, IsReachedTechnique, IsRuleOf;
    TargetsAreReached(b);
    if !exists a :: a in b.actions && a.techniqueId.Some? {
      NothingWithoutTechniques(b);
      TraversalIsEmptyIff(b, [], []);
      return [];
    }
    var ordered := OrderedActions(b);
    ghost var dist :| IsTraversal(b, ordered, dist);
    TraversalIsEmptyIff(b, ordered, dist);
    if ordered == [] {
      return [];
    }
    var clauses := ClausesFor(ordered);
    var flowId, flowName := "unknown", "Attack Flow";
    if b.flow.Some? {
      flowId, flowName := b.flow.value.id, b.flow.value.name;
    }
    rules := [Rule("attack-flow." + flowId, flowName, "high", clauses)];
    TraversalSpells(b, ordered, dist);
    assert rules == [RuleFor(b, ordered)];
  }
}
