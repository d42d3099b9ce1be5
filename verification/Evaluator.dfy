/**
  The ordered-window evaluator: one anchor against a slice of candidate
  consequents, keeping the admissible candidate nearest in time.
 */
module Evaluator {
  import opened Wrappers
  import opened MachineInts
  import opened Sequences

  datatype EntityRef =
    | FilePath(path: string)
    | Process(name: string)
    | User(user: string)
    | Ip(addr: string)
    | Session(logonId: u64)

  datatype EventSource = Disk | Evtx | Registry | Memory | Other

  datatype Event = Event(
    id: u64,
    ts: i64,
    eventType: string,
    entityRefs: seq<EntityRef>,
    hostname: Option<string>,
    source: EventSource,
    artifactPath: string)

  datatype Severity = Info | Low | Medium | High | Critical

  datatype ScopeRule = SameHost | CrossHost | SameDump {
    /** An unknown host is admitted except across hosts. */
    predicate Admits(anchor: Option<string>, consequent: Option<string>) {
      match this
      case SameHost | SameDump => anchor.Some? && consequent.Some? ==> anchor == consequent
      case CrossHost => anchor.Some? && consequent.Some? && anchor != consequent
    }
  }

  /** Of two known hosts exactly one of same-host and cross-host admits; an unknown host is never cross-host. */
  lemma ScopesArePartitioned(a: Option<string>, c: Option<string>)
    ensures SameHost.Admits(a, c) != CrossHost.Admits(a, c)
    ensures SameHost.Admits(a, c) == SameDump.Admits(a, c)
    ensures a.None? || c.None? ==> SameHost.Admits(a, c)
  {}

  type Guard = (Event, Event) -> bool

  datatype RuleSpec = RuleSpec(
    code: string,
    attackTechnique: Option<string>,
    severity: Severity,
    anchorEventType: string,
    consequentEventType: string,
    windowNs: i64,
    scope: ScopeRule,
    note: string,
    ordered: bool,
    guard: Option<Guard>)

  datatype Role = Anchor | Consequent | Supporting

  datatype Member = Member(timelineId: u64, role: Role)

  datatype Correlation = Correlation(
    code: string,
    attackTechnique: Option<string>,
    severity: Severity,
    firstTs: i64,
    lastTs: i64,
    scope: ScopeRule,
    note: string,
    members: seq<Member>)

  predicate SharesEntity(a: seq<EntityRef>, b: seq<EntityRef>) {
    exists x | x in a :: x in b
  }

  // ---- what the evaluator promises, without its loop

  function Distance(anchor: Event, c: Event): nat { Abs(c.ts - anchor.ts) }

  predicate AnchorOk(rule: RuleSpec, anchor: Event) {
    anchor.ts > 0 && anchor.eventType == rule.anchorEventType
  }

  /** Everything the rule demands of one candidate. */
  predicate Admissible(rule: RuleSpec, anchor: Event, c: Event) {
    && c.ts > 0
    && c.eventType == rule.consequentEventType
    && (if rule.ordered then c.ts > anchor.ts else c.ts != anchor.ts)
    && Distance(anchor, c) <= rule.windowNs
    && rule.scope.Admits(anchor.hostname, c.hostname)
    && SharesEntity(anchor.entityRefs, c.entityRefs)
    && (rule.guard.Some? ==> rule.guard.value(anchor, c))
  }

  /** `i` is the first index of least distance among the admissible candidates. */
  ghost predicate IsNearest(rule: RuleSpec, anchor: Event, cs: seq<Event>, i: int) {
    && 0 <= i < |cs|
    && Admissible(rule, anchor, cs[i])
    && (forall j :: 0 <= j < |cs| && Admissible(rule, anchor, cs[j]) ==>
          && Distance(anchor, cs[i]) <= Distance(anchor, cs[j])
          && (j < i ==> Distance(anchor, cs[i]) < Distance(anchor, cs[j])))
  }

  function Report(rule: RuleSpec, anchor: Event, c: Event): Correlation {
    Correlation(rule.code, rule.attackTechnique, rule.severity,
                if anchor.ts <= c.ts then anchor.ts else c.ts,
                if anchor.ts <= c.ts then c.ts else anchor.ts,
                rule.scope, rule.note,
                [Member(anchor.id, Anchor), Member(c.id, Consequent)])
  }

  /** The correlation of `anchor` with its nearest admissible candidate, if there is one. */
  ghost function Outcome(rule: RuleSpec, anchor: Event, cs: seq<Event>): Option<Correlation> {
    if AnchorOk(rule, anchor) && exists i :: IsNearest(rule, anchor, cs, i)
    then
      var i :| IsNearest(rule, anchor, cs, i);
      Some(Report(rule, anchor, cs[i]))
    else None
  }

  lemma OutcomeIs(rule: RuleSpec, anchor: Event, cs: seq<Event>, i: int)
    requires AnchorOk(rule, anchor) && IsNearest(rule, anchor, cs, i)
    ensures Outcome(rule, anchor, cs) == Some(Report(rule, anchor, cs[i]))
  {
    var k :| IsNearest(rule, anchor, cs, k) && Outcome(rule, anchor, cs) == Some(Report(rule, anchor, cs[k]));
  }

  lemma {:induction false} NearestExists(rule: RuleSpec, anchor: Event, cs: seq<Event>, c: Event) returns (i: int)
    requires c in cs && Admissible(rule, anchor, c)
    ensures IsNearest(rule, anchor, cs, i)
  {
    var n := |cs| - 1;
    var init, last := cs[..n], cs[n];
    if d :| d in init && Admissible(rule, anchor, d) {
      i := NearestExists(rule, anchor, init, d);
      if Admissible(rule, anchor, last) && Distance(anchor, last) < Distance(anchor, cs[i]) {
        i := n;
      }
    } else {
      assert forall j :: 0 <= j < n ==> cs[j] in init;
      i := n;
    }
  }

  // ---- the evaluator

  method Evaluate(rule: RuleSpec, anchor: Event, consequents: seq<Event>) returns (r: Option<Correlation>)
    ensures r == Outcome(rule, anchor, consequents)
  {
    var anchorTs := anchor.ts;
    if anchorTs <= 0 || anchor.eventType != rule.anchorEventType {
      return None;
    }
    var best: Option<nat> := None;
    for k := 0 to |consequents|
      invariant best.None? ==> forall j :: 0 <= j < k ==> !Admissible(rule, anchor, consequents[j])
      invariant best.Some? ==> IsNearest(rule, anchor, consequents[..k], best.value)
    {
      var candidate := consequents[k];
      assert consequents[..k + 1] == consequents[..k] + [candidate];
      var ts := candidate.ts;
      if ts <= 0 || candidate.eventType != rule.consequentEventType {
        continue;
      }
      // Both stamps are positive here, so neither the difference nor its magnitude leaves i64.
      var delta: i64 := ts - anchorTs;
      var gap: i64 := Abs(delta);
      var withinWindow := if rule.ordered then ts > anchorTs && delta <= rule.windowNs
                          else ts != anchorTs && gap <= rule.windowNs;
      if !withinWindow {
        continue;
      }
      if !rule.scope.Admits(anchor.hostname, candidate.hostname) {
        continue;
      }
      if !SharesEntity(anchor.entityRefs, candidate.entityRefs) {
        continue;
      }
      if rule.guard.Some? && !rule.guard.value(anchor, candidate) {
        continue;
      }
      var nearer := true;
      if best.Some? {
        var bestDelta: i64 := consequents[best.value].ts - anchorTs;
        nearer := gap < Abs(bestDelta);
      }
      if nearer {
        best := Some(k);
      }
    }
    assert consequents[..|consequents|] == consequents;
    if best.None? {
      return None;
    }
    OutcomeIs(rule, anchor, consequents, best.value);
    var c := consequents[best.value];
    var firstTs, lastTs := c.ts, anchorTs;
    if anchorTs <= c.ts {
      firstTs, lastTs := anchorTs, c.ts;
    }
    r := Some(Correlation(rule.code, rule.attackTechnique, rule.severity, firstTs, lastTs, rule.scope, rule.note,
                          [Member(anchor.id, Anchor), Member(c.id, Consequent)]));
  }

  // ---- laws

  /** A rule fires exactly when some candidate is admissible, and then its window is strict and bounded. */
  lemma EvaluateIsExact(rule: RuleSpec, anchor: Event, cs: seq<Event>)
    ensures Outcome(rule, anchor, cs).Some? <==>
            AnchorOk(rule, anchor) && exists c :: c in cs && Admissible(rule, anchor, c)
    ensures Outcome(rule, anchor, cs).Some? ==>
              var c := Outcome(rule, anchor, cs).value;
              && 0 < c.firstTs
              && 0 < c.lastTs - c.firstTs <= rule.windowNs
              && (rule.ordered ==> c.firstTs == anchor.ts)
              && anchor.ts in {c.firstTs, c.lastTs}
  {
    if AnchorOk(rule, anchor) {
      if c :| c in cs && Admissible(rule, anchor, c) {
        var i := NearestExists(rule, anchor, cs, c);
        OutcomeIs(rule, anchor, cs, i);
      }
    }
  }

  /** The order of the candidates affects neither firing nor the span; in ordered mode not even the window. */
  lemma OutcomeUnderPermutation(rule: RuleSpec, anchor: Event, cs: seq<Event>, ds: seq<Event>)
    requires multiset(cs) == multiset(ds)
    ensures Outcome(rule, anchor, cs).Some? <==> Outcome(rule, anchor, ds).Some?
    ensures Outcome(rule, anchor, cs).Some? ==>
              var c, d := Outcome(rule, anchor, cs).value, Outcome(rule, anchor, ds).value;
              && c.lastTs - c.firstTs == d.lastTs - d.firstTs
              && (rule.ordered ==> c.firstTs == d.firstTs && c.lastTs == d.lastTs)
  {
    SameElements(cs, ds);
    EvaluateIsExact(rule, anchor, cs);
    EvaluateIsExact(rule, anchor, ds);
    if Outcome(rule, anchor, cs).Some? {
      var i :| IsNearest(rule, anchor, cs, i);
      var j :| IsNearest(rule, anchor, ds, j);
      OutcomeIs(rule, anchor, cs, i);
      OutcomeIs(rule, anchor, ds, j);
      assert cs[i] in ds && ds[j] in cs;
    }
  }

  // ---- the outcome in the fields of rule and events

  /** What makes a rule fire on a single candidate. */
  lemma FiresOnOneIff(rule: RuleSpec, anchor: Event, c: Event)
    ensures Outcome(rule, anchor, [c]).Some? <==>
            && anchor.eventType == rule.anchorEventType && c.eventType == rule.consequentEventType
            && anchor.ts > 0 && c.ts > 0
            && (if rule.ordered then 0 < c.ts - anchor.ts <= rule.windowNs
                else c.ts != anchor.ts && c.ts - anchor.ts <= rule.windowNs && anchor.ts - c.ts <= rule.windowNs)
            && (if rule.scope.CrossHost? then
                  anchor.hostname.Some? && c.hostname.Some? && anchor.hostname.value != c.hostname.value
                else
                  anchor.hostname.None? || c.hostname.None? || anchor.hostname.value == c.hostname.value)
            && (exists e :: e in anchor.entityRefs && e in c.entityRefs)
            && (rule.guard.Some? ==> rule.guard.value(anchor, c))
  {
    EvaluateIsExact(rule, anchor, [c]);
    hide Outcome;
    assert c in [c];
  }

  /** A rule that fires names its anchor and one candidate it would have fired on alone, with that very report. */
  lemma OutcomeNamesPair(rule: RuleSpec, anchor: Event, cs: seq<Event>)
    ensures Outcome(rule, anchor, cs).Some? ==>
              var r := Outcome(rule, anchor, cs).value;
              exists c :: c in cs && Outcome(rule, anchor, [c]) == Some(r)
                          && r.members == [Member(anchor.id, Anchor), Member(c.id, Consequent)]
                          && {r.firstTs, r.lastTs} == {anchor.ts, c.ts} && r.firstTs < r.lastTs
                          && (r.code, r.attackTechnique, r.severity, r.scope, r.note)
                             == (rule.code, rule.attackTechnique, rule.severity, rule.scope, rule.note)
  {
    if Outcome(rule, anchor, cs).Some? {
      var i :| IsNearest(rule, anchor, cs, i);
      OutcomeIs(rule, anchor, cs, i);
      assert IsNearest(rule, anchor, [cs[i]], 0);
      OutcomeIs(rule, anchor, [cs[i]], 0);
      assert cs[i] in cs;
      EvaluateIsExact(rule, anchor, cs);
    }
  }

  lemma AdmissibleIffAlone(rule: RuleSpec, anchor: Event, c: Event)
    requires AnchorOk(rule, anchor)
    ensures Admissible(rule, anchor, c) <==> Outcome(rule, anchor, [c]).Some?
  {
    EvaluateIsExact(rule, anchor, [c]);
    hide Outcome, Admissible;
    assert c in [c];
  }

  /** Candidates that the rule would not fire on alone may be dropped, whatever else is dropped of them. */
  lemma {:induction false} InertCandidatesDoNotMatter(rule: RuleSpec, anchor: Event, cs: seq<Event>,
                                                      keep: Event -> bool)
    requires forall c :: c in cs && Outcome(rule, anchor, [c]).Some? ==> keep(c)
    ensures Outcome(rule, anchor, cs) == Outcome(rule, anchor, Filter(keep, cs))
  {
    if AnchorOk(rule, anchor) {
      forall c | c in cs && Admissible(rule, anchor, c) ensures keep(c) {
        AdmissibleIffAlone(rule, anchor, c);
      }
      DropInadmissible(rule, anchor, cs, keep);
    }
  }

  lemma {:induction false} DropInadmissible(rule: RuleSpec, anchor: Event, cs: seq<Event>, keep: Event -> bool)
    requires AnchorOk(rule, anchor) && forall c :: c in cs && Admissible(rule, anchor, c) ==> keep(c)
    ensures Outcome(rule, anchor, cs) == Outcome(rule, anchor, Filter(keep, cs))
  {
    hide Admissible, Report, Distance;
    var ds := Filter(keep, cs);
    if c :| c in cs && Admissible(rule, anchor, c) {
      var i := NearestExists(rule, anchor, cs, c);
      var j := NearestAfterFilter(rule, anchor, cs, keep, i);
      OutcomeIs(rule, anchor, cs, i);
      OutcomeIs(rule, anchor, ds, j);
    } else {
      assert forall k :: 0 <= k < |cs| ==> cs[k] in cs;
      assert forall k :: 0 <= k < |ds| ==> ds[k] in ds;
    }
  }

  lemma {:induction false} NearestAfterFilter(rule: RuleSpec, anchor: Event, cs: seq<Event>, keep: Event -> bool,
                                              i: int)
    returns (j: int)
    requires IsNearest(rule, anchor, cs, i) && forall c :: c in cs && Admissible(rule, anchor, c) ==> keep(c)
    ensures IsNearest(rule, anchor, Filter(keep, cs), j) && Filter(keep, cs)[j] == cs[i]
  {
    hide Admissible, Distance;
    var ds, front := Filter(keep, cs), Filter(keep, cs[..i]);
    assert cs[i] in cs;
    FilterKeepsAt(keep, cs, i);
    j := |front|;
    forall k | 0 <= k < |ds| && Admissible(rule, anchor, ds[k])
      ensures Distance(anchor, ds[j]) <= Distance(anchor, ds[k])
      ensures k < j ==> Distance(anchor, ds[j]) < Distance(anchor, ds[k])
    {
      var m: int;
      if k < j {
        assert front[k] in front;
        m :| 0 <= m < i && cs[..i][m] == ds[k];
      } else {
        assert ds[k] in cs;
        m :| 0 <= m < |cs| && cs[m] == ds[k];
      }
      assert cs[m] == ds[k];
    }
  }

  /**
    Hosts. A same-host or same-dump rule may ignore every candidate on a known host other than the
    anchor's known one; a cross-host rule may ignore all but those on a known other host.
   */
  lemma ForeignHostsDoNotMatter(rule: RuleSpec, anchor: Event, cs: seq<Event>)
    ensures !rule.scope.CrossHost? ==>
              var near := (c: Event) =>
                !(anchor.hostname.Some? && c.hostname.Some? && c.hostname.value != anchor.hostname.value);
              Outcome(rule, anchor, cs) == Outcome(rule, anchor, Filter(near, cs))
    ensures rule.scope.CrossHost? ==>
              var foreign := (c: Event) =>
                anchor.hostname.Some? && c.hostname.Some? && c.hostname.value != anchor.hostname.value;
              Outcome(rule, anchor, cs) == Outcome(rule, anchor, Filter(foreign, cs))
  {
    var foreign := (c: Event) => anchor.hostname.Some? && c.hostname.Some? && c.hostname.value != anchor.hostname.value;
    var near := (c: Event) =>
      !(anchor.hostname.Some? && c.hostname.Some? && c.hostname.value != anchor.hostname.value);
    forall c | c in cs && Outcome(rule, anchor, [c]).Some?
      ensures if rule.scope.CrossHost? then foreign(c) else near(c)
    {
      FiresOnOneIff(rule, anchor, c);
    }
    hide Outcome;
    InertCandidatesDoNotMatter(rule, anchor, cs, if rule.scope.CrossHost? then foreign else near);
  }

  /**
    Two candidates that differ only in their host, the anchor's own or another: the same-host rule takes
    the first wherever the cross-host rule takes the second, and neither takes the other's.
   */
  lemma HostsAreToldApart(rule: RuleSpec, anchor: Event, c: Event, other: string)
    requires anchor.hostname.Some? && other != anchor.hostname.value && rule.guard.None?
    ensures var here, there := c.(hostname := anchor.hostname), c.(hostname := Some(other));
            var same, cross := rule.(scope := SameHost), rule.(scope := CrossHost);
            && Outcome(same, anchor, [there]).None? && Outcome(cross, anchor, [here]).None?
            && (Outcome(same, anchor, [here]).Some? <==> Outcome(cross, anchor, [there]).Some?)
            && (Outcome(same, anchor, [here]).Some? <==> Outcome(same, anchor, [c.(hostname := None)]).Some?)
            && Outcome(rule.(scope := SameDump), anchor, [there]).None?
  {
    var here, there := c.(hostname := anchor.hostname), c.(hostname := Some(other));
    var same, cross := rule.(scope := SameHost), rule.(scope := CrossHost);
    FiresOnOneIff(same, anchor, here);
    FiresOnOneIff(same, anchor, there);
    FiresOnOneIff(same, anchor, c.(hostname := None));
    FiresOnOneIff(cross, anchor, here);
    FiresOnOneIff(cross, anchor, there);
    FiresOnOneIff(rule.(scope := SameDump), anchor, there);
    hide Outcome;
  }

  // ---- when the reported window depends on the order of the candidates

  ghost predicate IsPermutation(ds: seq<Event>, cs: seq<Event>) { multiset(ds) == multiset(cs) }

  ghost function WindowOf(o: Option<Correlation>): Option<(int, int)> {
    if o.Some? then Some((o.value.firstTs, o.value.lastTs)) else None
  }

  /** `c` is an admissible candidate at the least distance from the anchor. */
  ghost predicate IsClosest(rule: RuleSpec, anchor: Event, cs: seq<Event>, c: Event) {
    && c in cs && Admissible(rule, anchor, c)
    && forall d :: d in cs && Admissible(rule, anchor, d) ==> Distance(anchor, c) <= Distance(anchor, d)
  }

  /** Candidates at the least distance lie on both sides of the anchor. */
  ghost predicate Straddled(rule: RuleSpec, anchor: Event, cs: seq<Event>) {
    && AnchorOk(rule, anchor)
    && exists c, d :: IsClosest(rule, anchor, cs, c) && IsClosest(rule, anchor, cs, d) && c.ts < anchor.ts < d.ts
  }

  lemma ClosestInFront(rule: RuleSpec, anchor: Event, cs: seq<Event>, c: Event) returns (ds: seq<Event>)
    requires AnchorOk(rule, anchor) && IsClosest(rule, anchor, cs, c)
    ensures IsPermutation(ds, cs) && Outcome(rule, anchor, ds) == Some(Report(rule, anchor, c))
  {
    var i :| 0 <= i < |cs| && cs[i] == c;
    var rest := cs[..i] + cs[i + 1..];
    ds := [c] + rest;
    assert cs == cs[..i] + [c] + cs[i + 1..];
    SameElements(ds, cs);
    hide Admissible, Distance, Report;
    assert forall j :: 0 <= j < |ds| ==> ds[j] in cs;
    assert IsNearest(rule, anchor, ds, 0);
    OutcomeIs(rule, anchor, ds, 0);
  }

  /** Every candidate order gives one window exactly when the closest candidates lie on one side of the anchor. */
  lemma WindowStableIff(rule: RuleSpec, anchor: Event, cs: seq<Event>)
    ensures (forall ds :: IsPermutation(ds, cs) ==>
               WindowOf(Outcome(rule, anchor, ds)) == WindowOf(Outcome(rule, anchor, cs)))
            <==> !Straddled(rule, anchor, cs)
  {
    if Straddled(rule, anchor, cs) {
      var c, d :| IsClosest(rule, anchor, cs, c) && IsClosest(rule, anchor, cs, d) && c.ts < anchor.ts < d.ts;
      var xs := ClosestInFront(rule, anchor, cs, c);
      var ys := ClosestInFront(rule, anchor, cs, d);
      hide Outcome;
      assert WindowOf(Outcome(rule, anchor, xs)) != WindowOf(Outcome(rule, anchor, ys));
    } else {
      forall ds | IsPermutation(ds, cs)
        ensures WindowOf(Outcome(rule, anchor, ds)) == WindowOf(Outcome(rule, anchor, cs))
      {
        OneWindow(rule, anchor, cs, ds);
      }
    }
  }

  lemma OneWindow(rule: RuleSpec, anchor: Event, cs: seq<Event>, ds: seq<Event>)
    requires !Straddled(rule, anchor, cs) && IsPermutation(ds, cs)
    ensures WindowOf(Outcome(rule, anchor, ds)) == WindowOf(Outcome(rule, anchor, cs))
  {
    SameElements(cs, ds);
    OutcomeUnderPermutation(rule, anchor, cs, ds);
    if Outcome(rule, anchor, cs).Some? {
      var i :| IsNearest(rule, anchor, cs, i);
      var j :| IsNearest(rule, anchor, ds, j);
      OutcomeIs(rule, anchor, cs, i);
      OutcomeIs(rule, anchor, ds, j);
      hide Outcome, IsNearest;
      assert !(cs[i].ts < anchor.ts < ds[j].ts) && !(ds[j].ts < anchor.ts < cs[i].ts);
    }
  }

  // ---- whether the earliest candidate wins

  /** `i` is the first index of least time among the admissible candidates. */
  ghost predicate IsEarliest(rule: RuleSpec, anchor: Event, cs: seq<Event>, i: int) {
    && 0 <= i < |cs|
    && Admissible(rule, anchor, cs[i])
    && (forall j :: 0 <= j < |cs| && Admissible(rule, anchor, cs[j]) ==>
          cs[i].ts <= cs[j].ts && (j < i ==> cs[i].ts < cs[j].ts))
  }

  /** In ordered mode the candidate reported is the earliest admissible one. */
  lemma OrderedPicksEarliest(rule: RuleSpec, anchor: Event, cs: seq<Event>, i: int)
    requires rule.ordered && AnchorOk(rule, anchor)
    ensures IsNearest(rule, anchor, cs, i) <==> IsEarliest(rule, anchor, cs, i)
    ensures IsEarliest(rule, anchor, cs, i) ==> Outcome(rule, anchor, cs) == Some(Report(rule, anchor, cs[i]))
  {
    assert forall c :: Admissible(rule, anchor, c) ==> Distance(anchor, c) == c.ts - anchor.ts;
    if IsNearest(rule, anchor, cs, i) {
      OutcomeIs(rule, anchor, cs, i);
    }
  }

  /** The nearest candidate has the earliest time. */
  ghost predicate EarliestWins(rule: RuleSpec, anchor: Event, cs: seq<Event>) {
    forall i, j :: IsNearest(rule, anchor, cs, i) && 0 <= j < |cs| && Admissible(rule, anchor, cs[j]) ==>
      cs[i].ts <= cs[j].ts
  }

  /** `cs[i]` comes before the anchor, with all admissible candidates that do, and ahead of those after it. */
  ghost predicate LeadsFromBefore(rule: RuleSpec, anchor: Event, cs: seq<Event>, i: int) {
    && 0 <= i < |cs| && Admissible(rule, anchor, cs[i]) && cs[i].ts < anchor.ts
    && forall j :: 0 <= j < |cs| && Admissible(rule, anchor, cs[j]) ==>
         if cs[j].ts < anchor.ts then cs[j].ts == cs[i].ts
         else Distance(anchor, cs[i]) < Distance(anchor, cs[j])
              || (Distance(anchor, cs[i]) == Distance(anchor, cs[j]) && i < j)
  }

  /**
    In either mode the earliest candidate wins exactly when no admissible candidate precedes the anchor,
    or those that do share one time and come ahead of all that follow it.
   */
  lemma EarliestWinsIff(rule: RuleSpec, anchor: Event, cs: seq<Event>)
    ensures EarliestWins(rule, anchor, cs) <==>
            || (forall j :: 0 <= j < |cs| && Admissible(rule, anchor, cs[j]) ==> cs[j].ts > anchor.ts)
            || (exists i :: LeadsFromBefore(rule, anchor, cs, i))
  {
    assert forall c :: Admissible(rule, anchor, c) ==> c.ts != anchor.ts;
    if j :| 0 <= j < |cs| && Admissible(rule, anchor, cs[j]) && cs[j].ts < anchor.ts {
      var k := NearestExists(rule, anchor, cs, cs[j]);
      hide Admissible;
      if EarliestWins(rule, anchor, cs) {
        assert LeadsFromBefore(rule, anchor, cs, k);
      }
    }
  }

  /** An earlier candidate that is further away loses in either-order mode. */
  lemma NearestBeatsEarliest()
    ensures exists rule: RuleSpec, anchor, cs ::
              !rule.ordered && AnchorOk(rule, anchor) && !EarliestWins(rule, anchor, cs)
  {
    var rule := RuleSpec("R", None, High, "a", "c", 10, SameHost, "", false, None);
    var who := User("u");
    var anchor := Event(1, 10, "a", [who], None, Disk, "");
    var early, late := Event(2, 5, "c", [who], None, Disk, ""), Event(3, 12, "c", [who], None, Disk, "");
    assert who in anchor.entityRefs && who in early.entityRefs && who in late.entityRefs;
    var cs := [early, late];
    assert Admissible(rule, anchor, cs[0]) && Admissible(rule, anchor, cs[1]);
    assert IsNearest(rule, anchor, cs, 1);
    assert !EarliestWins(rule, anchor, cs);
  }

  /**
    Two events equally far from the anchor on either side: an either-order rule reports a
    different window when they are exchanged, so the previous lemma cannot be strengthened.
   */
  lemma EitherOrderWindowDependsOnOrder(rule: RuleSpec)
    requires !rule.ordered && rule.guard.None? && rule.scope.SameHost? && rule.windowNs >= 1
    ensures exists anchor, early, late ::
              && Outcome(rule, anchor, [early, late]).Some? && Outcome(rule, anchor, [late, early]).Some?
              && Outcome(rule, anchor, [early, late]).value.firstTs
                 != Outcome(rule, anchor, [late, early]).value.firstTs
  {
    var who := User("u");
    var anchor := Event(1, 5, rule.anchorEventType, [who], None, Disk, "");
    var early := Event(2, 4, rule.consequentEventType, [who], None, Disk, "");
    var late := Event(3, 6, rule.consequentEventType, [who], None, Disk, "");
    assert who in anchor.entityRefs && who in early.entityRefs && who in late.entityRefs;
    assert Admissible(rule, anchor, early) && Admissible(rule, anchor, late);
    OutcomeIs(rule, anchor, [early, late], 0);
    OutcomeIs(rule, anchor, [late, early], 0);
    assert Outcome(rule, anchor, [early, late]).value.firstTs == 4;
    assert Outcome(rule, anchor, [late, early]).value.firstTs == 5;
  }
}
