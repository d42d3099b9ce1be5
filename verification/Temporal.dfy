/**
  Temporal rules: an anchor with sequence, absence and discrepancy clauses over a
  symmetric time window.
 */
module Temporal {
  import opened Wrappers
  import opened MachineInts
  import opened Strings
  import opened Sequences
  import opened Numerals
  import opened Evaluator

  datatype TimelineEvent = TimelineEvent(
    ts: i64,
    eventType: string,
    artifact: string,
    description: string,
    recordHash: string,
    entityRefs: seq<EntityRef>)

  datatype EventFilter = EventFilter(
    eventType: string,
    artifact: Option<string>,
    contains: Option<string>,
    containsAny: Option<seq<string>>)

  datatype Discrepancy = Discrepancy(
    entityRole: string,
    compareEventType: string,
    compareArtifact: string,
    minDeltaSeconds: i64,
    direction: string)

  datatype TemporalRule = TemporalRule(
    id: string,
    title: string,
    severity: string,
    withinSeconds: i64,
    anchor: EventFilter,
    sequence: seq<EventFilter>,
    absent: seq<EventFilter>,
    discrepancy: seq<Discrepancy>)

  datatype Detail = Detail(entityKey: string, anchorTs: i64, compareArtifact: string, compareTs: i64, deltaNs: i64)

  datatype Finding = Finding(
    ruleId: string,
    title: string,
    severity: string,
    anchorHash: string,
    matchedHashes: seq<string>,
    discrepancy: Option<Detail>)

  // ---- predicates on one event

  predicate FilterMatches(e: TimelineEvent, f: EventFilter) {
    && e.eventType == f.eventType
    && (f.artifact.Some? ==> e.artifact == f.artifact.value)
    && (f.contains.Some? ==> Contains(e.description, f.contains.value))
    && (f.containsAny.Some? ==> exists n | n in f.containsAny.value :: Contains(e.description, n))
  }

  predicate RoleMatches(r: EntityRef, role: string) {
    match r
    case FilePath(_) => role == "path"
    case Process(_) => role == "process"
    case User(_) => role == "user"
    case Ip(_) => role == "ip"
    case Session(_) => role == "session"
  }

  function HexChar(d: nat): char { if d < 10 then '0' + d as char else if d < 16 then 'a' + (d - 10) as char else 'g' }

  function Hex(n: nat): string { Map(HexChar, Numeral(16, n)) }

  function EntityKey(r: EntityRef): string {
    match r
    case FilePath(p) => "path:" + p
    case Process(n) => "proc:" + n
    case User(u) => "user:" + u
    case Ip(a) => "ip:" + a
    case Session(id) => "session:0x" + Hex(id)
  }

  lemma HexInjective(m: nat, n: nat)
    requires Hex(m) == Hex(n)
    ensures m == n
  {
    var a, b := Numeral(16, m), Numeral(16, n);
    assert |a| == |b|;
    forall k | 0 <= k < |a| ensures a[k] == b[k] {
      assert HexChar(a[k]) == Hex(m)[k] == Hex(n)[k] == HexChar(b[k]);
    }
    assert a == b;
    NumeralInjective(16, m, n);
  }

  /** Joining on keys is joining on entities: the keys of different entities differ. */
  lemma EntityKeyInjective(r: EntityRef, s: EntityRef)
    ensures EntityKey(r) == EntityKey(s) <==> r == s
  {
    if EntityKey(r) == EntityKey(s) {
      var k, l := EntityKey(r), EntityKey(s);
      assert k[0] == l[0] && k[1] == l[1];
      match r {
        case FilePath(p) =>
          assert k[5..] == p && (s.FilePath? ==> l[5..] == s.path);
        case Process(n) =>
          assert k[5..] == n && (s.Process? ==> l[5..] == s.name);
        case User(u) =>
          assert k[5..] == u && (s.User? ==> l[5..] == s.user);
        case Ip(a) =>
          assert k[3..] == a && (s.Ip? ==> l[3..] == s.addr);
        case Session(id) =>
          assert k[10..] == Hex(id) && (s.Session? ==> l[10..] == Hex(s.logonId));
          if s.Session? {
            HexInjective(id, s.logonId);
          }
      }
    }
  }

  // ---- what makes an anchor fire

  function Nanos(seconds: i64): i64 { SatI64(seconds * NANOS) }

  predicate InWindow(rule: TemporalRule, anchor: TimelineEvent, e: TimelineEvent) {
    e.recordHash != anchor.recordHash && Abs(e.ts - anchor.ts) <= Nanos(rule.withinSeconds)
  }

  /** Some event in the window of `anchor` matches the filter. */
  ghost predicate Witnessed(rule: TemporalRule, events: seq<TimelineEvent>, anchor: TimelineEvent, f: EventFilter) {
    exists e :: e in events && InWindow(rule, anchor, e) && FilterMatches(e, f)
  }

  predicate SharesKey(refs: seq<EntityRef>, key: string) { exists r | r in refs :: EntityKey(r) == key }

  predicate Compares(clause: Discrepancy, anchor: TimelineEvent, key: string, e: TimelineEvent) {
    && e.recordHash != anchor.recordHash
    && e.eventType == clause.compareEventType
    && e.artifact == clause.compareArtifact
    && SharesKey(e.entityRefs, key)
  }

  predicate Contradicts(clause: Discrepancy, anchor: TimelineEvent, e: TimelineEvent) {
    if clause.direction == "after"
    then anchor.ts > e.ts + Nanos(clause.minDeltaSeconds)
    else anchor.ts + Nanos(clause.minDeltaSeconds) < e.ts
  }

  /** Clause, anchor entity and compare event contradict. */
  predicate Clashes(clause: Discrepancy, anchor: TimelineEvent, r: EntityRef, e: TimelineEvent) {
    RoleMatches(r, clause.entityRole) && Compares(clause, anchor, EntityKey(r), e) && Contradicts(clause, anchor, e)
  }

  ghost predicate SomeClash(rule: TemporalRule, events: seq<TimelineEvent>, anchor: TimelineEvent) {
    exists c, r, e :: c in rule.discrepancy && r in anchor.entityRefs && e in events && Clashes(c, anchor, r, e)
  }

  ghost predicate Fires(rule: TemporalRule, events: seq<TimelineEvent>, anchor: TimelineEvent) {
    && FilterMatches(anchor, rule.anchor)
    && (forall f :: f in rule.sequence ==> Witnessed(rule, events, anchor, f))
    && (forall f :: f in rule.absent ==> !Witnessed(rule, events, anchor, f))
    && (rule.discrepancy == [] || SomeClash(rule, events, anchor))
  }

  // ---- what a finding contains

  function Window(rule: TemporalRule, events: seq<TimelineEvent>, anchor: TimelineEvent): seq<TimelineEvent> {
    Filter((e: TimelineEvent) => InWindow(rule, anchor, e), events)
  }

  function FirstMatch(s: seq<TimelineEvent>, f: EventFilter): (r: Option<TimelineEvent>)
    ensures r.Some? ==> r.value in s && FilterMatches(r.value, f)
    ensures r.None? ==> forall e :: e in s ==> !FilterMatches(e, f)
  {
    if s == [] then None else if FilterMatches(s[0], f) then Some(s[0]) else FirstMatch(s[1..], f)
  }

  /** Positions of a clash: clause, anchor entity, compare event. */
  datatype Clash = Clash(c: nat, r: nat, e: nat) {
    predicate Precedes(other: Clash) {
      c < other.c || (c == other.c && (r < other.r || (r == other.r && e < other.e)))
    }
  }

  ghost predicate ClashAt(rule: TemporalRule, events: seq<TimelineEvent>, anchor: TimelineEvent, at: Clash) {
    && at.c < |rule.discrepancy| && at.r < |anchor.entityRefs| && at.e < |events|
    && Clashes(rule.discrepancy[at.c], anchor, anchor.entityRefs[at.r], events[at.e])
  }

  ghost predicate FirstClashAt(rule: TemporalRule, events: seq<TimelineEvent>, anchor: TimelineEvent, at: Clash) {
    ClashAt(rule, events, anchor, at) && forall b: Clash :: ClashAt(rule, events, anchor, b) ==> !b.Precedes(at)
  }

  /**
    `f` is the finding of `anchor`: the first in-window match of each sequence filter and, when
    there are discrepancy clauses, the first clash in clause, entity and event order.
   */
  ghost predicate IsFindingFor(rule: TemporalRule, events: seq<TimelineEvent>, anchor: TimelineEvent, f: Finding) {
    var n := |rule.sequence|;
    && (f.ruleId, f.title, f.severity, f.anchorHash) == (rule.id, rule.title, rule.severity, anchor.recordHash)
    && n <= |f.matchedHashes|
    && (forall k :: 0 <= k < n ==>
          var hit := FirstMatch(Window(rule, events, anchor), rule.sequence[k]);
          hit.Some? && f.matchedHashes[k] == hit.value.recordHash)
    && if rule.discrepancy == [] then f.discrepancy.None? && |f.matchedHashes| == n
       else
         && f.discrepancy.Some? && |f.matchedHashes| == n + 1
         && exists at :: FirstClashAt(rule, events, anchor, at) && DetailsClash(rule, events, anchor, at, f)
  }

  ghost predicate DetailsClash(rule: TemporalRule, events: seq<TimelineEvent>, anchor: TimelineEvent, at: Clash,
                               f: Finding)
    requires ClashAt(rule, events, anchor, at) && f.discrepancy.Some? && f.matchedHashes != []
  {
    var e := events[at.e];
    && f.matchedHashes[|f.matchedHashes| - 1] == e.recordHash
    && f.discrepancy.value.entityKey == EntityKey(anchor.entityRefs[at.r])
    && f.discrepancy.value.anchorTs == anchor.ts
    && f.discrepancy.value.compareArtifact == e.artifact
    && f.discrepancy.value.compareTs == e.ts
    && f.discrepancy.value.deltaNs == Abs(e.ts - anchor.ts)
  }

  /** Timestamps and minimum gaps small enough for every difference and sum to fit `i64`. */
  ghost predicate Bounded(rule: TemporalRule, events: seq<TimelineEvent>) {
    && (forall e :: e in events ==> -0x3fff_ffff_ffff_ffff <= e.ts <= 0x3fff_ffff_ffff_ffff)
    && (forall c :: c in rule.discrepancy ==>
          -0x3fff_ffff_ffff_ffff <= Nanos(c.minDeltaSeconds) <= 0x3fff_ffff_ffff_ffff)
  }

  // ---- the evaluator

  method FindMatch(window: seq<TimelineEvent>, f: EventFilter) returns (r: Option<TimelineEvent>)
    ensures r == FirstMatch(window, f)
  {
    for k := 0 to |window|
      invariant FirstMatch(window, f) == FirstMatch(window[k..], f)
    {
      if FilterMatches(window[k], f) {
        return Some(window[k]);
      }
      assert window[k..][1..] == window[k + 1..];
    }
    r := None;
  }

  method FindClash(rule: TemporalRule, events: seq<TimelineEvent>, anchor: TimelineEvent)
    returns (at: Option<Clash>, deltaNs: i64)
    requires anchor in events && Bounded(rule, events)
    ensures at.None? ==> forall b: Clash :: !ClashAt(rule, events, anchor, b)
    ensures at.Some? ==> FirstClashAt(rule, events, anchor, at.value)
                         && deltaNs == Abs(events[at.value.e].ts - anchor.ts)
  {
    hide EntityKey, RoleMatches, Compares;
    for c := 0 to |rule.discrepancy|
      invariant forall b: Clash :: b.c < c ==> !ClashAt(rule, events, anchor, b)
    {
      var clause := rule.discrepancy[c];
      for r := 0 to |anchor.entityRefs|
        invariant forall b: Clash :: b.c < c || (b.c == c && b.r < r) ==> !ClashAt(rule, events, anchor, b)
      {
        if !RoleMatches(anchor.entityRefs[r], clause.entityRole) {
          continue;
        }
        var anchorKey := EntityKey(anchor.entityRefs[r]);
        for e := 0 to |events|
          invariant forall b: Clash :: b.Precedes(Clash(c, r, e)) ==> !ClashAt(rule, events, anchor, b)
        {
          var compare := events[e];
          assert compare in events && clause in rule.discrepancy;
          if !Compares(clause, anchor, anchorKey, compare) {
            continue;
          }
          deltaNs := Abs(compare.ts - anchor.ts);
          var minDeltaNs: i64 := Nanos(clause.minDeltaSeconds);
          var contradiction;
          if clause.direction == "after" {
            var earliest: i64 := compare.ts + minDeltaNs;
            contradiction := anchor.ts > earliest;
          } else {
            var latest: i64 := anchor.ts + minDeltaNs;
            contradiction := latest < compare.ts;
          }
          if contradiction {
            at := Some(Clash(c, r, e));
            return;
          }
        }
      }
    }
    at, deltaNs := None, 0;
  }

  /** The anchors among `part` that fire against all of `events`, in order. */
  ghost function Firing(rule: TemporalRule, events: seq<TimelineEvent>, part: seq<TimelineEvent>): seq<TimelineEvent> {
    Filter((a: TimelineEvent) => Fires(rule, events, a), part)
  }

  /** `findings` are those of the anchors, one each, in order. */
  ghost predicate AreFindings(rule: TemporalRule, events: seq<TimelineEvent>, anchors: seq<TimelineEvent>,
                              findings: seq<Finding>)
  {
    |findings| == |anchors| && forall k :: 0 <= k < |anchors| ==> IsFindingFor(rule, events, anchors[k], findings[k])
  }

  lemma FiringGrows(rule: TemporalRule, events: seq<TimelineEvent>, part: seq<TimelineEvent>, a: TimelineEvent)
    ensures Firing(rule, events, part + [a])
            == Firing(rule, events, part) + if Fires(rule, events, a) then [a] else []
  {
    FilterAppend((x: TimelineEvent) => Fires(rule, events, x), part, [a]);
  }

  lemma WindowIsWitnessed(rule: TemporalRule, events: seq<TimelineEvent>, anchor: TimelineEvent, f: EventFilter)
    ensures Witnessed(rule, events, anchor, f) <==> FirstMatch(Window(rule, events, anchor), f).Some?
  {
    var window := Window(rule, events, anchor);
    if e :| e in events && InWindow(rule, anchor, e) && FilterMatches(e, f) {
      assert e in window;
    }
  }

  /** The hashes of the first matches of the sequence filters, while all of them have one. */
  method MatchSequence(window: seq<TimelineEvent>, filters: seq<EventFilter>) returns (hashes: seq<string>, ok: bool)
    ensures ok <==> forall f :: f in filters ==> FirstMatch(window, f).Some?
    ensures ok ==> |hashes| == |filters| && forall k :: 0 <= k < |filters| ==>
                     && FirstMatch(window, filters[k]).Some?
                     && hashes[k] == FirstMatch(window, filters[k]).value.recordHash
  {
    hide FirstMatch;
    hashes := [];
    for k := 0 to |filters|
      invariant |hashes| == k
      invariant forall j :: 0 <= j < k ==>
                  FirstMatch(window, filters[j]).Some? && hashes[j] == FirstMatch(window, filters[j]).value.recordHash
    {
      var hit := FindMatch(window, filters[k]);
      if hit.None? {
        assert filters[k] in filters;
        return hashes, false;
      }
      hashes := hashes + [hit.value.recordHash];
    }
    ok := true;
  }

  /** One anchor that matches the rule's anchor filter. */
  method EvaluateAnchor(rule: TemporalRule, events: seq<TimelineEvent>, anchor: TimelineEvent)
    returns (r: Option<Finding>)
    requires anchor in events && FilterMatches(anchor, rule.anchor) && Bounded(rule, events)
    ensures r.Some? <==> Fires(rule, events, anchor)
    ensures r.Some? ==> IsFindingFor(rule, events, anchor, r.value)
  {
    hide FilterMatches, FirstMatch, Filter, Clashes, InWindow;
    var window := Window(rule, events, anchor);
    forall f ensures Witnessed(rule, events, anchor, f) <==> FirstMatch(window, f).Some? {
      WindowIsWitnessed(rule, events, anchor, f);
    }
    var matched, sequenceOk := MatchSequence(window, rule.sequence);
    if !sequenceOk {
      return None;
    }
    var allAbsent := forall f | f in rule.absent :: FirstMatch(window, f).None?;
    if !allAbsent {
      return None;
    }
    if rule.discrepancy == [] {
      return Some(Finding(rule.id, rule.title, rule.severity, anchor.recordHash, matched, None));
    }
    var at, deltaNs := FindClash(rule, events, anchor);
    ClashPositions(rule, events, anchor);
    if at.None? {
      return None;
    }
    var compare := events[at.value.e];
    var detail := Detail(EntityKey(anchor.entityRefs[at.value.r]), anchor.ts,
                         rule.discrepancy[at.value.c].compareArtifact, compare.ts, deltaNs);
    assert rule.discrepancy[at.value.c].compareArtifact == compare.artifact by {
      ClashSharesArtifact(rule, events, anchor, at.value);
    }
    r := Some(Finding(rule.id, rule.title, rule.severity, anchor.recordHash,
                      matched + [compare.recordHash], Some(detail)));
    assert DetailsClash(rule, events, anchor, at.value, r.value);
  }

  lemma ClashSharesArtifact(rule: TemporalRule, events: seq<TimelineEvent>, anchor: TimelineEvent, at: Clash)
    requires ClashAt(rule, events, anchor, at)
    ensures rule.discrepancy[at.c].compareArtifact == events[at.e].artifact
  {}

  lemma ClashPositions(rule: TemporalRule, events: seq<TimelineEvent>, anchor: TimelineEvent)
    ensures SomeClash(rule, events, anchor) <==> exists at :: ClashAt(rule, events, anchor, at)
  {
    hide Clashes;
    if c, r, e :| c in rule.discrepancy && r in anchor.entityRefs && e in events && Clashes(c, anchor, r, e) {
      var i :| 0 <= i < |rule.discrepancy| && rule.discrepancy[i] == c;
      var j :| 0 <= j < |anchor.entityRefs| && anchor.entityRefs[j] == r;
      var k :| 0 <= k < |events| && events[k] == e;
      assert ClashAt(rule, events, anchor, Clash(i, j, k));
    }
  }

  /** One finding for each anchor that fires, in event order. */
  method EvaluateTemporal(rule: TemporalRule, events: seq<TimelineEvent>) returns (findings: seq<Finding>)
    requires Bounded(rule, events)
    ensures AreFindings(rule, events, Firing(rule, events, events), findings)
  {
    hide IsFindingFor, Firing, Bounded, FilterMatches;
    findings := [];
    assert Firing(rule, events, []) == [] by { FiringOfNothing(rule, events); }
    for i := 0 to |events|
      invariant AreFindings(rule, events, Firing(rule, events, events[..i]), findings)
    {
      var anchor := events[i];
      assert events[..i + 1] == events[..i] + [anchor];
      FiringGrows(rule, events, events[..i], anchor);
      if FilterMatches(anchor, rule.anchor) {
        var r := EvaluateAnchor(rule, events, anchor);
        if r.Some? {
          findings := findings + [r.value];
        }
      }
    }
    assert events[..|events|] == events;
  }

  lemma FiringOfNothing(rule: TemporalRule, events: seq<TimelineEvent>)
    ensures Firing(rule, events, []) == []
  {}

  // ---- laws

  /** Whether an anchor fires does not depend on the order of the events; nor does the multiset of firing anchors. */
  lemma FiringUnderPermutation(rule: TemporalRule, events: seq<TimelineEvent>, permuted: seq<TimelineEvent>)
    requires multiset(events) == multiset(permuted)
    ensures forall a :: Fires(rule, events, a) <==> Fires(rule, permuted, a)
    ensures multiset(Firing(rule, events, events)) == multiset(Firing(rule, permuted, permuted))
  {
    SameElements(events, permuted);
    hide FilterMatches, InWindow, Clashes;
    forall a ensures Fires(rule, events, a) <==> Fires(rule, permuted, a) {
      assert forall f :: Witnessed(rule, events, a, f) <==> Witnessed(rule, permuted, a, f);
      assert SomeClash(rule, events, a) <==> SomeClash(rule, permuted, a);
    }
    FilterPermuted((a: TimelineEvent) => Fires(rule, events, a), (a: TimelineEvent) => Fires(rule, permuted, a),
                   events, permuted);
  }

  /** A rule with only discrepancy clauses gives the same findings for every window. */
  lemma DiscrepancyIgnoresWindow(rule: TemporalRule, seconds: i64, events: seq<TimelineEvent>, findings: seq<Finding>)
    requires rule.sequence == [] && rule.absent == []
    ensures var other := rule.(withinSeconds := seconds);
            AreFindings(rule, events, Firing(rule, events, events), findings) <==>
            AreFindings(other, events, Firing(other, events, events), findings)
  {
    var other := rule.(withinSeconds := seconds);
    hide Clashes, FilterMatches;
    forall a, at ensures ClashAt(rule, events, a, at) <==> ClashAt(other, events, a, at) {}
    forall a, at ensures FirstClashAt(rule, events, a, at) <==> FirstClashAt(other, events, a, at) {}
    forall a, f ensures IsFindingFor(rule, events, a, f) <==> IsFindingFor(other, events, a, f) {
      hide ClashAt;
      assert forall at :: FirstClashAt(rule, events, a, at) ==> FirstClashAt(other, events, a, at);
    }
    SameFiring(rule, other, events, events);
  }

  lemma {:induction false} SameFiring(rule: TemporalRule, other: TemporalRule, events: seq<TimelineEvent>,
                                      part: seq<TimelineEvent>)
    requires rule.sequence == [] && rule.absent == [] && other == rule.(withinSeconds := other.withinSeconds)
    ensures Firing(rule, events, part) == Firing(other, events, part)
  {
    if part != [] {
      SameFiring(rule, other, events, part[1..]);
      assert Fires(rule, events, part[0]) <==> Fires(other, events, part[0]) by {
        assert SomeClash(rule, events, part[0]) <==> SomeClash(other, events, part[0]);
      }
    }
  }

  /** Widening the window never silences a rule without absences and never wakes one without sequences. */
  lemma WindowMonotone(rule: TemporalRule, wider: i64, events: seq<TimelineEvent>, anchor: TimelineEvent)
    requires rule.withinSeconds <= wider
    ensures var other := rule.(withinSeconds := wider);
            && (rule.absent == [] && Fires(rule, events, anchor) ==> Fires(other, events, anchor))
            && (rule.sequence == [] && Fires(other, events, anchor) ==> Fires(rule, events, anchor))
  {
    var other := rule.(withinSeconds := wider);
    assert Nanos(rule.withinSeconds) <= Nanos(wider);
    assert forall f :: Witnessed(rule, events, anchor, f) ==> Witnessed(other, events, anchor, f);
    assert SomeClash(rule, events, anchor) <==> SomeClash(other, events, anchor);
  }
}
