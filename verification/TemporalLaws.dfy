/**
  What temporal evaluation promises, in the fields of rule, events and findings.
 */
module TemporalLaws {
  import opened Wrappers
  import opened MachineInts
  import opened Strings
  import opened Sequences
  import opened Numerals
  import opened Evaluator
  import opened Temporal

  /** Type, artifact and description as the filter asks. */
  ghost predicate Meets(e: TimelineEvent, f: EventFilter) {
    && e.eventType == f.eventType
    && (f.artifact.Some? ==> e.artifact == f.artifact.value)
    && (f.contains.Some? ==> HasPart(e.description, f.contains.value))
    && (f.containsAny.Some? ==> exists n :: n in f.containsAny.value && HasPart(e.description, n))
  }

  /** Another record, at most the rule's seconds before or after the anchor. */
  ghost predicate IsNear(rule: TemporalRule, anchor: TimelineEvent, e: TimelineEvent) {
    && e.recordHash != anchor.recordHash
    && e.ts - anchor.ts <= rule.withinSeconds * NANOS && anchor.ts - e.ts <= rule.withinSeconds * NANOS
  }

  ghost predicate PlaysRole(r: EntityRef, role: string) {
    || (r.FilePath? && role == "path") || (r.Process? && role == "process") || (r.User? && role == "user")
    || (r.Ip? && role == "ip") || (r.Session? && role == "session")
  }

  /** Another record of the clause's type and artifact that carries the anchor's entity `r` of the clause's role. */
  ghost predicate IsCompared(c: Discrepancy, anchor: TimelineEvent, r: EntityRef, e: TimelineEvent) {
    && r in anchor.entityRefs && PlaysRole(r, c.entityRole)
    && e.recordHash != anchor.recordHash && r in e.entityRefs
    && e.eventType == c.compareEventType && e.artifact == c.compareArtifact
  }

  /** The anchor is later than the compared event by more than the gap or, by default, earlier by more than it. */
  ghost predicate IsBeyondGap(c: Discrepancy, anchor: TimelineEvent, e: TimelineEvent) {
    if c.direction == "after" then anchor.ts - e.ts > c.minDeltaSeconds * NANOS
    else e.ts - anchor.ts > c.minDeltaSeconds * NANOS
  }

  /** Positions of clause, anchor entity and compared event at which the anchor is contradicted. */
  ghost predicate IsContradicted(rule: TemporalRule, events: seq<TimelineEvent>, anchor: TimelineEvent,
                                 c: int, r: int, e: int)
  {
    && 0 <= c < |rule.discrepancy| && 0 <= r < |anchor.entityRefs| && 0 <= e < |events|
    && IsCompared(rule.discrepancy[c], anchor, anchor.entityRefs[r], events[e])
    && IsBeyondGap(rule.discrepancy[c], anchor, events[e])
  }

  /** The `i`th event is the first in the window of the anchor that meets the filter. */
  ghost predicate IsFirstNear(rule: TemporalRule, events: seq<TimelineEvent>, anchor: TimelineEvent, f: EventFilter,
                              i: int)
  {
    && 0 <= i < |events| && IsNear(rule, anchor, events[i]) && Meets(events[i], f)
    && forall j :: 0 <= j < i ==> !(IsNear(rule, anchor, events[j]) && Meets(events[j], f))
  }

  /** The hash is that of the first event in the window that meets the filter. */
  ghost predicate HashesFirstNear(rule: TemporalRule, events: seq<TimelineEvent>, anchor: TimelineEvent,
                                  f: EventFilter, hash: string)
  {
    exists i :: IsFirstNear(rule, events, anchor, f, i) && hash == events[i].recordHash
  }

  ghost predicate SomeNear(rule: TemporalRule, events: seq<TimelineEvent>, anchor: TimelineEvent, f: EventFilter) {
    exists e :: e in events && IsNear(rule, anchor, e) && Meets(e, f)
  }

  ghost predicate Alarms(rule: TemporalRule, events: seq<TimelineEvent>, anchor: TimelineEvent) {
    && Meets(anchor, rule.anchor)
    && (forall f :: f in rule.sequence ==> SomeNear(rule, events, anchor, f))
    && (forall f :: f in rule.absent ==> !SomeNear(rule, events, anchor, f))
    && (rule.discrepancy == [] || exists c, r, e :: IsContradicted(rule, events, anchor, c, r, e))
  }

  /** No contradiction comes before the one at these positions, by clause, entity and event. */
  ghost predicate IsFirstContradiction(rule: TemporalRule, events: seq<TimelineEvent>, anchor: TimelineEvent,
                                       c: int, r: int, e: int)
  {
    && IsContradicted(rule, events, anchor, c, r, e)
    && forall d, s, f :: IsContradicted(rule, events, anchor, d, s, f) ==>
         c < d || (c == d && (r < s || (r == s && e <= f)))
  }

  ghost predicate KeySpells(key: string, r: EntityRef) {
    match r
    case FilePath(p) => key == "path:" + p
    case Process(n) => key == "proc:" + n
    case User(u) => key == "user:" + u
    case Ip(a) => key == "ip:" + a
    case Session(id) => |key| > 10 && key[..10] == "session:0x" && HexSpells(key[10..], id)
  }

  const HEX_DIGITS := "0123456789abcdef"

  /** The text is the number in lower-case hexadecimal digits. */
  ghost predicate HexSpells(text: string, n: nat) {
    exists ds: seq<nat> :: Value(16, ds) == n && |ds| == |text|
      && forall k :: 0 <= k < |ds| ==> ds[k] < 16 && text[k] == HEX_DIGITS[ds[k]]
  }

  /** The finding names the anchor, the first near event of each sequence filter and the first contradiction. */
  ghost predicate Describes(rule: TemporalRule, events: seq<TimelineEvent>, anchor: TimelineEvent, f: Finding) {
    var n := |rule.sequence|;
    && (f.ruleId, f.title, f.severity, f.anchorHash) == (rule.id, rule.title, rule.severity, anchor.recordHash)
    && n <= |f.matchedHashes|
    && (forall k :: 0 <= k < n ==> HashesFirstNear(rule, events, anchor, rule.sequence[k], f.matchedHashes[k]))
    && if rule.discrepancy == [] then f.discrepancy.None? && |f.matchedHashes| == n
       else f.discrepancy.Some? && |f.matchedHashes| == n + 1 && DescribesContradiction(rule, events, anchor, f)
  }

  ghost predicate DescribesContradiction(rule: TemporalRule, events: seq<TimelineEvent>, anchor: TimelineEvent,
                                         f: Finding)
    requires f.discrepancy.Some? && f.matchedHashes != []
  {
    exists c, r, e ::
      && IsFirstContradiction(rule, events, anchor, c, r, e)
      && f.matchedHashes[|f.matchedHashes| - 1] == events[e].recordHash
      && KeySpells(f.discrepancy.value.entityKey, anchor.entityRefs[r])
      && f.discrepancy.value.anchorTs == anchor.ts && f.discrepancy.value.compareTs == events[e].ts
      && f.discrepancy.value.compareArtifact == rule.discrepancy[c].compareArtifact
      && (f.discrepancy.value.deltaNs == anchor.ts - events[e].ts
          || f.discrepancy.value.deltaNs == events[e].ts - anchor.ts)
      && f.discrepancy.value.deltaNs >= 0
  }

  // ---- the evaluation's own predicates mean just that

  lemma FilterMatchesIff(e: TimelineEvent, f: EventFilter)
    ensures FilterMatches(e, f) <==> Meets(e, f)
  {
    if f.contains.Some? {
      ContainsIff(e.description, f.contains.value);
    }
    if f.containsAny.Some? {
      forall n ensures Contains(e.description, n) <==> HasPart(e.description, n) {
        ContainsIff(e.description, n);
      }
    }
    hide Contains, HasPart;
  }

  /** Over bounded stamps the saturation of the window has no effect. */
  lemma InWindowIff(rule: TemporalRule, events: seq<TimelineEvent>, anchor: TimelineEvent, e: TimelineEvent)
    requires Bounded(rule, events) && anchor in events && e in events
    ensures InWindow(rule, anchor, e) <==> IsNear(rule, anchor, e)
  {}

  lemma WitnessedIff(rule: TemporalRule, events: seq<TimelineEvent>, anchor: TimelineEvent, f: EventFilter)
    requires Bounded(rule, events) && anchor in events
    ensures Witnessed(rule, events, anchor, f) <==> SomeNear(rule, events, anchor, f)
  {
    hide Bounded, InWindow, FilterMatches, IsNear, Meets;
    forall e | e in events
      ensures InWindow(rule, anchor, e) && FilterMatches(e, f) <==> IsNear(rule, anchor, e) && Meets(e, f)
    {
      InWindowIff(rule, events, anchor, e);
      FilterMatchesIff(e, f);
    }
  }

  lemma ClashIff(rule: TemporalRule, events: seq<TimelineEvent>, anchor: TimelineEvent, at: Clash)
    requires Bounded(rule, events) && anchor in events
    ensures ClashAt(rule, events, anchor, at) <==> IsContradicted(rule, events, anchor, at.c, at.r, at.e)
  {
    if at.c < |rule.discrepancy| && at.r < |anchor.entityRefs| && at.e < |events| {
      var c, r, e := rule.discrepancy[at.c], anchor.entityRefs[at.r], events[at.e];
      assert c in rule.discrepancy && r in anchor.entityRefs && e in events;
      SharesKeyIff(e.entityRefs, r);
      hide SharesKey, EntityKey;
    }
  }

  lemma SharesKeyIff(refs: seq<EntityRef>, r: EntityRef)
    ensures SharesKey(refs, EntityKey(r)) <==> r in refs
  {
    forall s ensures EntityKey(s) == EntityKey(r) <==> s == r {
      EntityKeyInjective(s, r);
    }
    hide EntityKey;
  }

  /** When an anchor fires, in the fields of rule and events. */
  lemma FiresIff(rule: TemporalRule, events: seq<TimelineEvent>, anchor: TimelineEvent)
    requires Bounded(rule, events) && anchor in events
    ensures Fires(rule, events, anchor) <==> Alarms(rule, events, anchor)
  {
    FilterMatchesIff(anchor, rule.anchor);
    forall f ensures Witnessed(rule, events, anchor, f) <==> SomeNear(rule, events, anchor, f) {
      WitnessedIff(rule, events, anchor, f);
    }
    ClashPositions(rule, events, anchor);
    hide Bounded, Witnessed, SomeNear, SomeClash, IsContradicted, ClashAt, FilterMatches, Meets;
    if at :| ClashAt(rule, events, anchor, at) {
      ClashIff(rule, events, anchor, at);
    }
    if c, r, e :| IsContradicted(rule, events, anchor, c, r, e) {
      PositionsAreNatural(rule, events, anchor, c, r, e);
      ClashIff(rule, events, anchor, Clash(c, r, e));
    }
  }

  lemma PositionsAreNatural(rule: TemporalRule, events: seq<TimelineEvent>, anchor: TimelineEvent,
                            c: int, r: int, e: int)
    requires IsContradicted(rule, events, anchor, c, r, e)
    ensures c >= 0 && r >= 0 && e >= 0
  {}

  lemma {:induction false} FirstMatchPosition(rule: TemporalRule, events: seq<TimelineEvent>, anchor: TimelineEvent,
                                              f: EventFilter) returns (i: nat)
    requires FirstMatch(Window(rule, events, anchor), f).Some?
    ensures i < |events| && events[i] == FirstMatch(Window(rule, events, anchor), f).value
    ensures InWindow(rule, anchor, events[i]) && FilterMatches(events[i], f)
    ensures forall j :: 0 <= j < i ==> !(InWindow(rule, anchor, events[j]) && FilterMatches(events[j], f))
  {
    hide InWindow, FilterMatches;
    assert events != [];
    var window, rest := Window(rule, events, anchor), Window(rule, events[1..], anchor);
    assert window == (if InWindow(rule, anchor, events[0]) then [events[0]] else []) + rest;
    if InWindow(rule, anchor, events[0]) {
      assert window[0] == events[0] && window[1..] == rest;
    } else {
      assert window == rest;
    }
    if InWindow(rule, anchor, events[0]) && FilterMatches(events[0], f) {
      i := 0;
    } else {
      i := FirstMatchPosition(rule, events[1..], anchor, f);
      i := i + 1;
    }
  }

  lemma FirstNear(rule: TemporalRule, events: seq<TimelineEvent>, anchor: TimelineEvent, f: EventFilter)
    returns (i: nat)
    requires Bounded(rule, events) && anchor in events && FirstMatch(Window(rule, events, anchor), f).Some?
    ensures IsFirstNear(rule, events, anchor, f, i)
    ensures events[i] == FirstMatch(Window(rule, events, anchor), f).value
  {
    i := FirstMatchPosition(rule, events, anchor, f);
    hide Bounded, InWindow, FilterMatches, IsNear, Meets, FirstMatch, Window;
    forall j | 0 <= j < |events|
      ensures InWindow(rule, anchor, events[j]) && FilterMatches(events[j], f)
              <==> IsNear(rule, anchor, events[j]) && Meets(events[j], f)
    {
      InWindowIff(rule, events, anchor, events[j]);
      FilterMatchesIff(events[j], f);
    }
  }

  lemma HexCharIs(d: nat)
    requires d < 16
    ensures HexChar(d) == HEX_DIGITS[d]
  {
    assert HEX_DIGITS[..10] == "0123456789" && HEX_DIGITS[10..] == "abcdef";
    assert HEX_DIGITS[d] == if d < 10 then "0123456789"[d] else "abcdef"[d - 10];
  }

  lemma HexSpelled(n: nat)
    ensures HexSpells(Hex(n), n) && Hex(n) != ""
  {
    var ds := Numeral(16, n);
    NumeralValue(16, n);
    hide Numeral, HexChar, Value;
    assert |Hex(n)| == |ds|;
    forall k | 0 <= k < |ds| ensures ds[k] < 16 && Hex(n)[k] == HEX_DIGITS[ds[k]] {
      assert Hex(n)[k] == HexChar(ds[k]);
      HexCharIs(ds[k]);
    }
  }

  lemma KeySpelled(r: EntityRef)
    ensures KeySpells(EntityKey(r), r)
  {
    match r {
      case Session(id) =>
        HexSpelled(id);
        hide HexSpells, Hex;
        assert EntityKey(r)[..10] == "session:0x" && EntityKey(r)[10..] == Hex(id);
      case _ =>
    }
  }

  lemma FirstClashIff(rule: TemporalRule, events: seq<TimelineEvent>, anchor: TimelineEvent, at: Clash)
    requires Bounded(rule, events) && anchor in events && FirstClashAt(rule, events, anchor, at)
    ensures IsFirstContradiction(rule, events, anchor, at.c, at.r, at.e)
  {
    hide Bounded, ClashAt, IsContradicted;
    ClashIff(rule, events, anchor, at);
    forall d, s, f | IsContradicted(rule, events, anchor, d, s, f)
      ensures at.c < d || (at.c == d && (at.r < s || (at.r == s && at.e <= f)))
    {
      PositionsAreNatural(rule, events, anchor, d, s, f);
      ClashIff(rule, events, anchor, Clash(d, s, f));
      assert !Clash(d, s, f).Precedes(at);
    }
  }

  lemma FindingDescribes(rule: TemporalRule, events: seq<TimelineEvent>, anchor: TimelineEvent, f: Finding)
    requires Bounded(rule, events) && anchor in events && IsFindingFor(rule, events, anchor, f)
    ensures Describes(rule, events, anchor, f)
  {
    hide Bounded, FirstMatch, Window, ClashAt, IsFirstContradiction, KeySpells, EntityKey, DetailsClash;
    forall k | 0 <= k < |rule.sequence|
      ensures HashesFirstNear(rule, events, anchor, rule.sequence[k], f.matchedHashes[k])
    {
      var i := FirstNear(rule, events, anchor, rule.sequence[k]);
    }
    if rule.discrepancy != [] {
      var at :| FirstClashAt(rule, events, anchor, at) && DetailsClash(rule, events, anchor, at, f);
      FirstClashIff(rule, events, anchor, at);
      DetailDescribes(rule, events, anchor, at, f);
    }
  }

  lemma DetailDescribes(rule: TemporalRule, events: seq<TimelineEvent>, anchor: TimelineEvent, at: Clash, f: Finding)
    requires ClashAt(rule, events, anchor, at) && f.discrepancy.Some? && f.matchedHashes != []
    requires DetailsClash(rule, events, anchor, at, f) && IsFirstContradiction(rule, events, anchor, at.c, at.r, at.e)
    ensures DescribesContradiction(rule, events, anchor, f)
  {
    KeySpelled(anchor.entityRefs[at.r]);
    ClashSharesArtifact(rule, events, anchor, at);
    hide KeySpells, EntityKey, IsFirstContradiction, ClashAt;
  }

  // ---- the whole evaluation

  /** The findings describe the alarming events, one each, in their order. */
  ghost predicate Report(rule: TemporalRule, events: seq<TimelineEvent>, findings: seq<Finding>, ps: seq<nat>) {
    && Increasing(ps) && |ps| == |findings|
    && (forall k :: 0 <= k < |ps| ==> ps[k] < |events| && Describes(rule, events, events[ps[k]], findings[k]))
    && (forall p: nat :: p in ps <==> p < |events| && Alarms(rule, events, events[p]))
  }

  /** What `EvaluateTemporal` returns, in the fields of rule, events and findings. */
  lemma FindingsReport(rule: TemporalRule, events: seq<TimelineEvent>, findings: seq<Finding>)
    requires Bounded(rule, events) && AreFindings(rule, events, Firing(rule, events, events), findings)
    ensures exists ps :: Report(rule, events, findings, ps)
  {
    var fires := (a: TimelineEvent) => Fires(rule, events, a);
    var ps, anchors := Positions(fires, events), Firing(rule, events, events);
    PositionsIncrease(fires, events);
    PositionsPick(fires, events);
    forall p: nat ensures p in ps <==> p < |events| && fires(events[p]) {
      PositionsIff(fires, events, p);
    }
    assert anchors == Filter((a: TimelineEvent) => Fires(rule, events, a), events);
    hide Bounded, Fires, Alarms, Describes, IsFindingFor, Firing, Filter;
    forall k | 0 <= k < |ps| ensures ps[k] < |events| && Describes(rule, events, events[ps[k]], findings[k]) {
      assert ps[k] < |events| && events[ps[k]] == anchors[k];
      FindingDescribes(rule, events, events[ps[k]], findings[k]);
    }
    forall p: nat ensures p in ps <==> p < |events| && Alarms(rule, events, events[p]) {
      if p < |events| {
        FiresIff(rule, events, events[p]);
      }
    }
    assert Report(rule, events, findings, ps);
  }

  /**
    Direction. With only "after" clauses every contradiction reported has the anchor later than the
    compared event by more than some clause's gap; with none, the compared event is later by more.
   */
  lemma DetailsFollowDirection(rule: TemporalRule, events: seq<TimelineEvent>, findings: seq<Finding>, k: nat)
    requires Bounded(rule, events) && AreFindings(rule, events, Firing(rule, events, events), findings)
    requires k < |findings| && findings[k].discrepancy.Some?
    ensures var d := findings[k].discrepancy.value;
            && ((forall c :: c in rule.discrepancy ==> c.direction == "after") ==>
                  exists c :: c in rule.discrepancy && d.anchorTs - d.compareTs > c.minDeltaSeconds * NANOS)
            && ((forall c :: c in rule.discrepancy ==> c.direction != "after") ==>
                  exists c :: c in rule.discrepancy && d.compareTs - d.anchorTs > c.minDeltaSeconds * NANOS)
  {
    FindingsReport(rule, events, findings);
    var ps :| Report(rule, events, findings, ps);
    var anchor := events[ps[k]];
    assert Describes(rule, events, anchor, findings[k]);
    hide Bounded, AreFindings, Firing, IsFirstNear, KeySpells, Report;
    assert DescribesContradiction(rule, events, anchor, findings[k]);
    var c, r, e :| IsFirstContradiction(rule, events, anchor, c, r, e)
                   && findings[k].discrepancy.value.anchorTs == anchor.ts
                   && findings[k].discrepancy.value.compareTs == events[e].ts;
    assert rule.discrepancy[c] in rule.discrepancy && IsBeyondGap(rule.discrepancy[c], anchor, events[e]);
  }

  /** An anchor that passes sequence and absence is reported as soon as one compared event lies beyond the gap. */
  lemma BeyondGapFires(rule: TemporalRule, events: seq<TimelineEvent>, anchor: TimelineEvent, c: Discrepancy,
                       r: EntityRef, e: TimelineEvent)
    requires Bounded(rule, events) && anchor in events && e in events && c in rule.discrepancy
    requires Fires(rule.(discrepancy := []), events, anchor) && IsCompared(c, anchor, r, e)
    requires if c.direction == "after" then anchor.ts - e.ts > c.minDeltaSeconds * NANOS
             else e.ts - anchor.ts > c.minDeltaSeconds * NANOS
    ensures Fires(rule, events, anchor)
  {
    FiresIff(rule, events, anchor);
    assert Bounded(rule.(discrepancy := []), events);
    FiresIff(rule.(discrepancy := []), events, anchor);
    hide Fires, Bounded, Meets, IsCompared, IsNear;
    var bare := rule.(discrepancy := []);
    assert forall f :: SomeNear(rule, events, anchor, f) <==> SomeNear(bare, events, anchor, f) by {
      NearIgnoresDiscrepancies(rule, bare, events, anchor);
    }
    var i :| 0 <= i < |rule.discrepancy| && rule.discrepancy[i] == c;
    var j :| 0 <= j < |anchor.entityRefs| && anchor.entityRefs[j] == r;
    var k :| 0 <= k < |events| && events[k] == e;
    assert IsContradicted(rule, events, anchor, i, j, k);
  }

  lemma NearIgnoresDiscrepancies(rule: TemporalRule, bare: TemporalRule, events: seq<TimelineEvent>,
                                 anchor: TimelineEvent)
    requires bare == rule.(discrepancy := [])
    ensures forall f :: SomeNear(rule, events, anchor, f) <==> SomeNear(bare, events, anchor, f)
  {
    forall e ensures IsNear(rule, anchor, e) <==> IsNear(bare, anchor, e) {}
    hide IsNear, Meets;
  }

}
