/**
  The correlation runner: rule loops driven by the entity index, and the parallel
  pass that must return what the sequential one returns.
 */
module Runner {
  import opened Wrappers
  import opened Sequences
  import opened Sorting
  import opened Evaluator
  import opened EntityIndex

  function Found(o: Option<Correlation>): seq<Correlation> {
    if o.Some? then [o.value] else []
  }

  // ---- rule loops

  /** What a rule loop reports when every anchor scans all candidates. */
  ghost function FullScan(rule: RuleSpec, anchors: seq<Event>, candidates: seq<Event>): seq<Correlation> {
    if anchors == [] then []
    else
      var n := |anchors| - 1;
      FullScan(rule, anchors[..n], candidates) + Found(Outcome(rule, anchors[n], candidates))
  }

  /** The same when anchors and candidates are one list and no event may pair with itself. */
  ghost function FullSelfScan(rule: RuleSpec, all: seq<Event>, n: nat): seq<Correlation>
    requires n <= |all|
  {
    if n == 0 then []
    else FullSelfScan(rule, all, n - 1) + Found(Outcome(rule, all[n - 1], all[..n - 1] + all[n..]))
  }

  function OfType(events: seq<Event>, eventType: string): seq<Event> {
    Filter((e: Event) => e.eventType == eventType, events)
  }

  /** The event joining on the one entity `join` derives for it. */
  function Project(e: Event, join: Event -> EntityRef): Event { e.(entityRefs := [join(e)]) }

  function Projected(events: seq<Event>, eventType: string, join: Event -> EntityRef): seq<Event> {
    Map((e: Event) => Project(e, join), OfType(events, eventType))
  }

  /** Projected events share an entity exactly when the derived entities agree; nothing else of them changes. */
  lemma ProjectionJoins(a: Event, c: Event, join: Event -> EntityRef)
    ensures SharesEntity(Project(a, join).entityRefs, Project(c, join).entityRefs) <==> join(a) == join(c)
    ensures Project(a, join).(entityRefs := a.entityRefs) == a
  {
    assert join(a) in Project(a, join).entityRefs;
  }

  /** The indexed loop over anchors and candidates of two types. */
  method RunJoin(rule: RuleSpec, anchors: seq<Event>, candidates: seq<Event>) returns (out: seq<Correlation>)
    ensures out == FullScan(rule, anchors, candidates)
  {
    hide Outcome, IsReduced, IsIndexOf;
    var index := BuildEntityIndex(candidates);
    out := [];
    for i := 0 to |anchors|
      invariant out == FullScan(rule, anchors[..i], candidates)
    {
      assert anchors[..i + 1][..i] == anchors[..i];
      var reduced := ReducedCandidates(anchors[i], index, candidates, None);
      var hit := Evaluate(rule, anchors[i], reduced);
      IndexRefinesFullScan(rule, anchors[i], candidates, None, reduced);
      if hit.Some? {
        out := out + [hit.value];
      }
    }
    assert anchors[..|anchors|] == anchors;
  }

  /** PERSIST and REGCONFIRM: both sides join on the entity derived from the event. */
  method RunProjected(rule: RuleSpec, events: seq<Event>, anchorType: string, candidateType: string,
                      join: Event -> EntityRef) returns (out: seq<Correlation>)
    ensures out == FullScan(rule, Projected(events, anchorType, join), Projected(events, candidateType, join))
  {
    out := RunJoin(rule, Projected(events, anchorType, join), Projected(events, candidateType, join));
  }

  /** LOGON-MALWARE-WRITE: both sides keep their own entities. */
  method RunTyped(rule: RuleSpec, events: seq<Event>, anchorType: string, candidateType: string)
    returns (out: seq<Correlation>)
    ensures out == FullScan(rule, OfType(events, anchorType), OfType(events, candidateType))
  {
    out := RunJoin(rule, OfType(events, anchorType), OfType(events, candidateType));
  }

  /** EXFIL-STAGE and LATERAL-MOVE: one event type joined with itself. */
  method RunSelfJoin(rule: RuleSpec, events: seq<Event>, eventType: string) returns (out: seq<Correlation>)
    ensures var all := OfType(events, eventType);
            out == FullSelfScan(rule, all, |all|)
  {
    hide Outcome, IsReduced, IsIndexOf, Filter;
    var all := OfType(events, eventType);
    var index := BuildEntityIndex(all);
    out := [];
    for i := 0 to |all|
      invariant out == FullSelfScan(rule, all, i)
    {
      var reduced := ReducedCandidates(all[i], index, all, Some(i));
      var hit := Evaluate(rule, all[i], reduced);
      IndexRefinesFullScan(rule, all[i], all, Some(i), reduced);
      assert Without(all, Some(i)) == all[..i] + all[i + 1..];
      if hit.Some? {
        out := out + [hit.value];
      }
    }
  }

  // ---- what the loops report

  /** The anchors that fire against the candidates. */
  ghost function Firing(rule: RuleSpec, anchors: seq<Event>, candidates: seq<Event>): seq<Event> {
    Filter((a: Event) => Outcome(rule, a, candidates).Some?, anchors)
  }

  /** One report for each anchor that fires, in anchor order. */
  lemma {:induction false} ScanReportsFiringAnchors(rule: RuleSpec, anchors: seq<Event>, candidates: seq<Event>)
    ensures var found, firing := FullScan(rule, anchors, candidates), Firing(rule, anchors, candidates);
            && |found| == |firing|
            && forall k :: 0 <= k < |found| ==> Some(found[k]) == Outcome(rule, firing[k], candidates)
  {
    hide Outcome;
    if anchors != [] {
      var n := |anchors| - 1;
      ScanReportsFiringAnchors(rule, anchors[..n], candidates);
      assert anchors == anchors[..n] + [anchors[n]];
      FilterAppend((a: Event) => Outcome(rule, a, candidates).Some?, anchors[..n], [anchors[n]]);
    }
  }

  /** Candidates of another type than the rule's are ignored. */
  lemma {:induction false} CandidateTypesDoNotMatter(rule: RuleSpec, anchors: seq<Event>, candidates: seq<Event>)
    ensures FullScan(rule, anchors, OfType(candidates, rule.consequentEventType)) == FullScan(rule, anchors, candidates)
  {
    if anchors != [] {
      var n := |anchors| - 1;
      CandidateTypesDoNotMatter(rule, anchors[..n], candidates);
      forall c | c in candidates && Outcome(rule, anchors[n], [c]).Some?
        ensures c.eventType == rule.consequentEventType
      {
        FiresOnOneIff(rule, anchors[n], c);
      }
      hide Outcome;
      InertCandidatesDoNotMatter(rule, anchors[n], candidates, (e: Event) => e.eventType == rule.consequentEventType);
    }
  }

  /** Anchors of another type than the rule's report nothing. */
  lemma {:induction false} AnchorTypesDoNotMatter(rule: RuleSpec, anchors: seq<Event>, candidates: seq<Event>)
    ensures FullScan(rule, OfType(anchors, rule.anchorEventType), candidates) == FullScan(rule, anchors, candidates)
  {
    if anchors == [] {
      assert OfType([], rule.anchorEventType) == [];
    } else {
      hide Outcome, OfType, FullScan;
      var n := |anchors| - 1;
      var init, last := anchors[..n], anchors[n];
      assert anchors == init + [last];
      AnchorTypesDoNotMatter(rule, init, candidates);
      TypeSnoc(init, last, rule.anchorEventType);
      ScanSnoc(rule, init, last, candidates);
      if last.eventType == rule.anchorEventType {
        ScanSnoc(rule, OfType(init, rule.anchorEventType), last, candidates);
      } else {
        OtherTypesDoNotFire(rule, last, candidates);
        assert FullScan(rule, init, candidates) + [] == FullScan(rule, init, candidates);
      }
    }
  }

  lemma ScanSnoc(rule: RuleSpec, anchors: seq<Event>, last: Event, candidates: seq<Event>)
    ensures FullScan(rule, anchors + [last], candidates)
            == FullScan(rule, anchors, candidates) + Found(Outcome(rule, last, candidates))
  {
    hide Outcome;
    assert (anchors + [last])[..|anchors|] == anchors;
  }

  lemma TypeSnoc(events: seq<Event>, e: Event, eventType: string)
    ensures OfType(events + [e], eventType) == if e.eventType == eventType then OfType(events, eventType) + [e]
                                               else OfType(events, eventType)
  {
    FilterAppend((x: Event) => x.eventType == eventType, events, [e]);
  }

  lemma OtherTypesDoNotFire(rule: RuleSpec, anchor: Event, candidates: seq<Event>)
    requires anchor.eventType != rule.anchorEventType
    ensures Outcome(rule, anchor, candidates).None?
  {
    OutcomeNamesPair(rule, anchor, candidates);
    hide Outcome;
    forall c ensures Outcome(rule, anchor, [c]).None? {
      FiresOnOneIff(rule, anchor, c);
    }
  }

  /** Sorting the events by type beforehand changes nothing: the typed loops scan every pair of events. */
  lemma TypedScanIsFullScan(rule: RuleSpec, events: seq<Event>)
    ensures FullScan(rule, OfType(events, rule.anchorEventType), OfType(events, rule.consequentEventType))
            == FullScan(rule, events, events)
  {
    CandidateTypesDoNotMatter(rule, OfType(events, rule.anchorEventType), events);
    AnchorTypesDoNotMatter(rule, events, events);
  }

  /** The same for projected events: they may all be projected first. */
  lemma ProjectedScanIsFullScan(rule: RuleSpec, events: seq<Event>, join: Event -> EntityRef)
    ensures var all := Map((e: Event) => Project(e, join), events);
            FullScan(rule, Projected(events, rule.anchorEventType, join),
                     Projected(events, rule.consequentEventType, join)) == FullScan(rule, all, all)
  {
    ProjectionKeepsTypes(events, rule.anchorEventType, join);
    ProjectionKeepsTypes(events, rule.consequentEventType, join);
    TypedScanIsFullScan(rule, Map((e: Event) => Project(e, join), events));
  }

  lemma {:induction false} ProjectionKeepsTypes(events: seq<Event>, eventType: string, join: Event -> EntityRef)
    ensures Projected(events, eventType, join) == OfType(Map((e: Event) => Project(e, join), events), eventType)
  {
    if events != [] {
      ProjectionKeepsTypes(events[1..], eventType, join);
    }
  }

  /** No event pairs with itself, so leaving out the anchor's own position changes nothing. */
  lemma {:induction false} SelfScanIsFullScan(rule: RuleSpec, all: seq<Event>, n: nat)
    requires n <= |all|
    ensures FullSelfScan(rule, all, n) == FullScan(rule, all[..n], all)
  {
    if n > 0 {
      SelfScanIsFullScan(rule, all, n - 1);
      assert all[..n][..n - 1] == all[..n - 1];
      OwnPositionDoesNotMatter(rule, all, n - 1);
    }
  }

  lemma OwnPositionDoesNotMatter(rule: RuleSpec, all: seq<Event>, i: nat)
    requires i < |all|
    ensures Outcome(rule, all[i], all[..i] + all[i + 1..]) == Outcome(rule, all[i], all)
  {
    FiresOnOneIff(rule, all[i], all[i]);
    hide Outcome, Filter;
    var keep := (c: Event) => c != all[i];
    InertCandidatesDoNotMatter(rule, all[i], all, keep);
    InertCandidatesDoNotMatter(rule, all[i], all[..i] + all[i + 1..], keep);
    FilterWithoutDropped(keep, all, i);
  }

  // ---- the parallel pass

  type DiskRule = seq<Event> -> seq<Correlation>

  /** The sequential pass: every rule's firings in rule order. */
  function RunCorrelations(rules: seq<DiskRule>, events: seq<Event>): seq<Correlation> {
    if rules == [] then []
    else RunCorrelations(rules[..|rules| - 1], events) + rules[|rules| - 1](events)
  }

  /** One rule reports its own firings; the firings of two rule lists follow one another. */
  lemma {:induction false} RunCorrelationsAppend(rules: seq<DiskRule>, more: seq<DiskRule>, events: seq<Event>)
    ensures RunCorrelations(rules + more, events) == RunCorrelations(rules, events) + RunCorrelations(more, events)
    ensures |rules| == 1 ==> RunCorrelations(rules, events) == rules[0](events)
  {
    if more == [] {
      assert rules + more == rules;
    } else {
      var n := |more| - 1;
      RunCorrelationsAppend(rules, more[..n], events);
      assert (rules + more)[..|rules| + n] == rules + more[..n];
    }
    assert |rules| == 1 ==> rules[..0] == [];
  }

  type Indexed = (nat, seq<Correlation>)

  predicate ByIndex(x: Indexed, y: Indexed) { x.0 <= y.0 }

  /** The pairs carry the indices below `n`, each exactly once. */
  ghost predicate CoversOnce(s: seq<Indexed>, n: nat) {
    && |s| == n
    && (forall k :: 0 <= k < n ==> s[k].0 < n)
    && (forall i, j :: 0 <= i < j < n ==> s[i].0 != s[j].0)
  }

  /** Sorted by index, a complete collection lists index `k` at position `k`. */
  lemma {:induction false} SortedCoverIsIdentity(s: seq<Indexed>, n: nat)
    requires CoversOnce(s, n) && Sorted(ByIndex, s)
    ensures forall k :: 0 <= k < n ==> s[k].0 == k
  {
    if n > 0 {
      var init := s[..n - 1];
      forall k | 0 <= k < n - 1 ensures init[k].0 < n - 1 {
        assert ByIndex(s[k], s[n - 1]) && s[k].0 != s[n - 1].0;
      }
      SortedCoverIsIdentity(init, n - 1);
      if n > 1 {
        assert s[n - 2].0 == n - 2 && ByIndex(s[n - 2], s[n - 1]);
      }
    }
  }

  lemma DistinctIndicesPermuted(s: seq<Indexed>, t: seq<Indexed>, n: nat)
    requires multiset(s) == multiset(t) && CoversOnce(s, n)
    ensures CoversOnce(t, n)
  {
    SameElements(s, t);
    forall k | 0 <= k < n ensures t[k].0 < n {
      assert t[k] in s;
    }
    forall i, j | 0 <= i < j < n ensures t[i].0 != t[j].0 {
      assert t[i] in s && t[j] in s;
      if t[i] == t[j] {
        TwiceInMultiset(t, i, j);
        var a :| 0 <= a < n && s[a] == t[i];
        OnceInMultiset(s, a);
      }
    }
  }

  lemma TwiceInMultiset<T>(s: seq<T>, i: int, j: int)
    requires 0 <= i < j < |s| && s[i] == s[j]
    ensures multiset(s)[s[i]] >= 2
  {
    assert s == s[..i] + [s[i]] + s[i + 1..j] + [s[j]] + s[j + 1..];
  }

  lemma OnceInMultiset<T>(s: seq<T>, a: int)
    requires 0 <= a < |s| && forall k :: 0 <= k < |s| && k != a ==> s[k] != s[a]
    ensures multiset(s)[s[a]] == 1
  {
    assert s == s[..a] + [s[a]] + s[a + 1..];
    assert s[a] !in s[..a] && s[a] !in s[a + 1..];
    assert s[a] !in multiset(s[..a]) && s[a] !in multiset(s[a + 1..]);
  }

  function Below(n: nat): (r: set<nat>)
    ensures |r| == n && forall i: nat :: i in r <==> i < n
  {
    if n == 0 then {} else Below(n - 1) + {n - 1}
  }

  /**
    The parallel pass. Rules complete in an arbitrary order, here an arbitrary choice
    among those still pending; the result is the sequential one whatever the order.
   */
  method RunCorrelationsWithMemory(rules: seq<DiskRule>, events: seq<Event>, memoryFirings: seq<Correlation>)
    returns (out: seq<Correlation>)
    ensures out == RunCorrelations(rules, events) + memoryFirings
  {
    hide StableSort, Below;
    var n := |rules|;
    var indexed: seq<Indexed> := [];
    var pending := Below(n);
    while pending != {}
      invariant |indexed| + |pending| == n
      invariant forall i: nat :: i in pending ==> i < n
      invariant forall k :: 0 <= k < |indexed| ==>
                  indexed[k].0 < n && indexed[k].0 !in pending && indexed[k].1 == rules[indexed[k].0](events)
      invariant forall i, j :: 0 <= i < j < |indexed| ==> indexed[i].0 != indexed[j].0
      decreases |pending|
    {
      var i: nat :| i in pending;
      pending := pending - {i};
      indexed := indexed + [(i, rules[i](events))];
    }
    ghost var completion := indexed;
    indexed := StableSort(ByIndex, indexed);
    StableSortSorted(ByIndex, completion);
    DistinctIndicesPermuted(completion, indexed, n);
    SameElements(completion, indexed);
    SortedCoverIsIdentity(indexed, n);
    out := [];
    for k := 0 to |indexed|
      invariant out == RunCorrelations(rules[..k], events)
    {
      assert indexed[k] in completion;
      assert rules[..k + 1][..k] == rules[..k];
      out := out + indexed[k].1;
    }
    assert rules[..n] == rules;
    out := out + memoryFirings;
  }
}
