/**
  What the clause matcher looks for and finds, in the fields of rule, evidence and findings.
 */
module ClauseLaws {
  import opened Wrappers
  import opened MachineInts
  import opened Strings
  import opened Sequences
  import opened ClauseMatcher

  /** Source, tag and attributes as the clause asks. */
  ghost predicate Meets(item: Evidence, clause: Clause) {
    && item.source == clause.source
    && (clause.requiredTag != "" ==> clause.requiredTag in item.tags)
    && (forall key, value :: Equals(key, value) in clause.attrPredicates ==>
          key in item.attrs && item.attrs[key] == value)
    && (forall key, part :: AttrPredicate.Contains(key, part) in clause.attrPredicates ==>
          key in item.attrs && HasPart(item.attrs[key], part))
    && (forall key, values :: AnyOf(key, values) in clause.attrPredicates ==>
          key in item.attrs && item.attrs[key] in values)
  }

  /** The first stamp among `ms` stands at `i`. */
  ghost predicate IsFirstStamp(ms: seq<Evidence>, i: int) {
    0 <= i < |ms| && ms[i].timestamp.Some? && forall j :: 0 <= j < i ==> ms[j].timestamp.None?
  }

  /** Less than `seconds + 1` whole seconds lie between the stamps. */
  ghost predicate IsWithin(a: int, b: int, seconds: int) {
    a - b < (seconds + 1) * NANOS && b - a < (seconds + 1) * NANOS
  }

  /** Every present subject is repeated by all items after it. */
  ghost predicate SubjectsRepeat(ms: seq<Evidence>) {
    forall i, k :: 0 <= i < k < |ms| && ms[i].subject.Some? ==> ms[k].subject == ms[i].subject
  }

  /** Under a window, all items after the first stamp lie within it of that stamp. */
  ghost predicate StampsAreWithin(rule: Rule, ms: seq<Evidence>) {
    rule.withinSeconds.Some? ==>
      forall i, k :: IsFirstStamp(ms, i) && i < k < |ms| ==>
        ms[k].timestamp.Some? && IsWithin(ms[i].timestamp.value, ms[k].timestamp.value, rule.withinSeconds.value)
  }

  /** The items may stand for the first clauses of the rule. */
  ghost predicate IsCoherent(rule: Rule, evidence: seq<Evidence>, ms: seq<Evidence>) {
    && |ms| <= |rule.clauses|
    && (forall k :: 0 <= k < |ms| ==> ms[k] in evidence && Meets(ms[k], rule.clauses[k]))
    && SubjectsRepeat(ms) && StampsAreWithin(rule, ms)
  }

  /** Each item is the first of the evidence that keeps the items so far coherent. */
  ghost predicate IsFirstEach(rule: Rule, evidence: seq<Evidence>, ms: seq<Evidence>) {
    && |ms| <= |rule.clauses|
    && forall k :: 0 <= k < |ms| ==> IsFirstNext(rule, evidence, ms[..k], ms[k])
  }

  ghost predicate IsFirstNext(rule: Rule, evidence: seq<Evidence>, ms: seq<Evidence>, e: Evidence) {
    exists i :: 0 <= i < |evidence| && evidence[i] == e && IsCoherent(rule, evidence, ms + [e])
                && forall j :: 0 <= j < i ==> !IsCoherent(rule, evidence, ms + [evidence[j]])
  }

  // ---- the matcher's own predicates mean just that

  lemma SuitsIff(item: Evidence, clause: Clause)
    ensures Suits(item, clause) <==> Meets(item, clause)
  {
    forall p ensures AttrMatches(item, p) <==>
      p.key in item.attrs && match p
                             case Equals(key, value) => item.attrs[key] == value
                             case Contains(key, part) => HasPart(item.attrs[key], part)
                             case AnyOf(key, values) => item.attrs[key] in values
    {
      if p.Contains? && p.key in item.attrs {
        ContainsIff(item.attrs[p.key], p.part);
      }
    }
    hide Strings.Contains, HasPart;
    if Meets(item, clause) {
      forall p | p in clause.attrPredicates ensures AttrMatches(item, p) {
        match p
        case Equals(key, value) => assert Equals(key, value) in clause.attrPredicates;
        case Contains(key, part) => assert AttrPredicate.Contains(key, part) in clause.attrPredicates;
        case AnyOf(key, values) => assert AnyOf(key, values) in clause.attrPredicates;
      }
    }
  }

  lemma WithinIff(a: int, b: int, seconds: int)
    ensures WithinWindow(Some(a), Some(b), Some(seconds)) <==> IsWithin(a, b, seconds)
  {
    var d := Abs(b - a);
    assert d / NANOS <= seconds <==> d < (seconds + 1) * NANOS;
  }

  lemma FirstSubjectIs(ms: seq<Evidence>, s: Option<Subject>)
    requires SubjectsRepeat(ms)
    ensures SubjectMatches(FirstSubject(ms), s) <==>
            forall i :: 0 <= i < |ms| && ms[i].subject.Some? ==> s == ms[i].subject
  {
    var p := SubjectPoint(ms);
    assert ms[..|ms|] == ms;
    hide FirstSubject;
  }

  /** Where the time is latched: at the first stamp, if there is one. */
  lemma {:induction false} StampPoint(ms: seq<Evidence>) returns (p: nat)
    ensures p <= |ms| && forall j :: 0 <= j < p ==> ms[j].timestamp.None?
    ensures if p < |ms| then ms[p].timestamp.Some? && FirstTime(ms) == ms[p].timestamp else FirstTime(ms).None?
  {
    if ms == [] {
      p := 0;
    } else {
      var n := |ms| - 1;
      p := StampPoint(ms[..n]);
      if p == n && ms[n].timestamp.None? {
        p := n + 1;
      }
    }
  }

  lemma FirstTimeIs(ms: seq<Evidence>)
    ensures FirstTime(ms).None? <==> forall i :: 0 <= i < |ms| ==> ms[i].timestamp.None?
    ensures forall i :: IsFirstStamp(ms, i) ==> FirstTime(ms) == ms[i].timestamp
  {
    var p := StampPoint(ms);
    hide FirstTime;
    forall i | IsFirstStamp(ms, i) ensures i == p {}
  }

  /** One more item is accepted exactly if the items stay coherent. */
  lemma AcceptsIff(rule: Rule, evidence: seq<Evidence>, ms: seq<Evidence>, e: Evidence)
    requires IsCoherent(rule, evidence, ms) && |ms| < |rule.clauses|
    ensures e in evidence && Accepts(rule, rule.clauses[|ms|], ms, e) <==> IsCoherent(rule, evidence, ms + [e])
  {
    SuitsIff(e, rule.clauses[|ms|]);
    SubjectsRepeatIff(ms, e);
    StampsAreWithinIff(rule, ms, e);
    hide Suits, Meets, FirstSubject, FirstTime, WithinWindow, SubjectMatches, SubjectsRepeat, StampsAreWithin;
    var longer := ms + [e];
    assert longer[|ms|] == e;
    assert forall k :: 0 <= k < |ms| ==> longer[k] == ms[k];
  }

  lemma SubjectsRepeatIff(ms: seq<Evidence>, e: Evidence)
    requires SubjectsRepeat(ms)
    ensures SubjectMatches(FirstSubject(ms), e.subject) <==> SubjectsRepeat(ms + [e])
  {
    FirstSubjectIs(ms, e.subject);
    hide FirstSubject, SubjectMatches;
    var longer := ms + [e];
    assert longer[|ms|] == e;
    assert forall k :: 0 <= k < |ms| ==> longer[k] == ms[k];
  }

  lemma StampsAreWithinIff(rule: Rule, ms: seq<Evidence>, e: Evidence)
    requires StampsAreWithin(rule, ms)
    ensures WithinWindow(FirstTime(ms), e.timestamp, rule.withinSeconds) <==> StampsAreWithin(rule, ms + [e])
  {
    StampsOfLonger(ms, e);
    TimeIff(rule, ms, e);
    hide FirstTime, WithinWindow, IsWithin;
    var longer := ms + [e];
    assert longer[|ms|] == e;
    assert forall k :: 0 <= k < |ms| ==> longer[k] == ms[k];
  }

  lemma StampsOfLonger(ms: seq<Evidence>, e: Evidence)
    ensures forall i :: i < |ms| ==> (IsFirstStamp(ms + [e], i) <==> IsFirstStamp(ms, i))
  {
    assert forall j :: 0 <= j < |ms| ==> (ms + [e])[j] == ms[j];
  }

  lemma TimeIff(rule: Rule, ms: seq<Evidence>, e: Evidence)
    ensures WithinWindow(FirstTime(ms), e.timestamp, rule.withinSeconds) <==>
            rule.withinSeconds.Some? ==> forall i :: IsFirstStamp(ms, i) ==>
              e.timestamp.Some? && IsWithin(ms[i].timestamp.value, e.timestamp.value, rule.withinSeconds.value)
  {
    FirstTimeIs(ms);
    if rule.withinSeconds.Some? && FirstTime(ms).Some? {
      var p := StampPoint(ms);
      assert IsFirstStamp(ms, p);
      if e.timestamp.Some? {
        WithinIff(ms[p].timestamp.value, e.timestamp.value, rule.withinSeconds.value);
      }
    }
    hide FirstTime;
  }

  lemma CoherentPrefix(rule: Rule, evidence: seq<Evidence>, ms: seq<Evidence>, n: nat)
    requires IsCoherent(rule, evidence, ms) && n <= |ms|
    ensures IsCoherent(rule, evidence, ms[..n])
  {
    hide Meets, IsWithin;
    assert forall i :: IsFirstStamp(ms[..n], i) ==> IsFirstStamp(ms, i);
  }

  /** The choices of the matcher are the coherent ones. */
  lemma {:induction false} ChoiceIff(rule: Rule, evidence: seq<Evidence>, ms: seq<Evidence>)
    ensures IsChoice(rule, evidence, ms) <==> IsCoherent(rule, evidence, ms)
    decreases |ms|
  {
    if ms != [] && |ms| <= |rule.clauses| {
      var n := |ms| - 1;
      var init, last := ms[..n], ms[n];
      assert ms == init + [last];
      ChoiceIff(rule, evidence, init);
      hide Accepts, Meets, IsFirstStamp, IsWithin;
      ChoiceSnoc(rule, evidence, init, last);
      if IsCoherent(rule, evidence, ms) {
        CoherentPrefix(rule, evidence, ms, n);
      }
      if IsCoherent(rule, evidence, init) {
        AcceptsIff(rule, evidence, init, last);
      }
    }
  }

  lemma ChoiceSnoc(rule: Rule, evidence: seq<Evidence>, ms: seq<Evidence>, e: Evidence)
    requires |ms| < |rule.clauses|
    ensures IsChoice(rule, evidence, ms + [e]) <==>
            IsChoice(rule, evidence, ms) && e in evidence && Accepts(rule, rule.clauses[|ms|], ms, e)
  {
    hide Accepts;
    var longer := ms + [e];
    assert longer[|ms|] == e && longer[..|ms|] == ms;
    assert forall k :: 0 <= k < |ms| ==> longer[k] == ms[k] && longer[..k] == ms[..k];
    if IsChoice(rule, evidence, ms) && e in evidence && Accepts(rule, rule.clauses[|ms|], ms, e) {
      ChoiceGrows(rule, evidence, ms, e);
    }
  }

  /** The greedy choices are those that take the first coherent item each time. */
  lemma {:induction false} GreedyIff(rule: Rule, evidence: seq<Evidence>, ms: seq<Evidence>)
    ensures IsGreedy(rule, evidence, ms) <==> IsFirstEach(rule, evidence, ms)
    decreases |ms|
  {
    if ms != [] && |ms| <= |rule.clauses| {
      var n := |ms| - 1;
      var init, last := ms[..n], ms[n];
      assert ms == init + [last];
      GreedyIff(rule, evidence, init);
      GreedySnoc(rule, evidence, init, last);
      FirstEachSnoc(rule, evidence, init, last);
      hide IsFirstAccepted, IsFirstNext, IsGreedy, IsFirstEach;
      if IsGreedy(rule, evidence, init) {
        GreedyIsChoice(rule, evidence, init);
        ChoiceIff(rule, evidence, init);
        FirstNextIff(rule, evidence, init, last);
      }
    }
  }

  lemma GreedySnoc(rule: Rule, evidence: seq<Evidence>, ms: seq<Evidence>, e: Evidence)
    requires |ms| < |rule.clauses|
    ensures IsGreedy(rule, evidence, ms + [e]) <==>
            IsGreedy(rule, evidence, ms) && IsFirstAccepted(rule, rule.clauses[|ms|], evidence, ms, e)
  {
    hide IsFirstAccepted;
    var longer := ms + [e];
    if IsGreedy(rule, evidence, longer) {
      GreedyCut(rule, evidence, longer, |ms|);
      assert longer[..|ms|] == ms && longer[|ms|] == e;
    } else if IsGreedy(rule, evidence, ms) && IsFirstAccepted(rule, rule.clauses[|ms|], evidence, ms, e) {
      GreedyGrows(rule, evidence, ms, e);
    }
  }

  lemma FirstEachSnoc(rule: Rule, evidence: seq<Evidence>, ms: seq<Evidence>, e: Evidence)
    requires |ms| < |rule.clauses|
    ensures IsFirstEach(rule, evidence, ms + [e]) <==>
            IsFirstEach(rule, evidence, ms) && IsFirstNext(rule, evidence, ms, e)
  {
    hide IsFirstNext;
    var longer := ms + [e];
    assert longer[..|ms|] == ms && longer[|ms|] == e;
    forall k | 0 <= k < |ms| ensures longer[..k] == ms[..k] && longer[k] == ms[k] {}
  }

  lemma FirstNextIff(rule: Rule, evidence: seq<Evidence>, ms: seq<Evidence>, e: Evidence)
    requires IsCoherent(rule, evidence, ms) && |ms| < |rule.clauses|
    ensures IsFirstAccepted(rule, rule.clauses[|ms|], evidence, ms, e) <==> IsFirstNext(rule, evidence, ms, e)
  {
    forall j | 0 <= j < |evidence|
      ensures Accepts(rule, rule.clauses[|ms|], ms, evidence[j]) <==> IsCoherent(rule, evidence, ms + [evidence[j]])
    {
      AcceptsIff(rule, evidence, ms, evidence[j]);
    }
    hide Accepts, IsCoherent;
  }

  // ---- the findings

  /** The finding reports the items: their ids, and for each id the first item that carries it. */
  ghost predicate Spells(f: Finding, rule: Rule, evidence: seq<Evidence>, ms: seq<Evidence>) {
    && f.ruleId == rule.id && f.title == rule.title && f.severity == rule.severity
    && |f.evidenceIds| == |f.rendered| == |ms|
    && forall k :: 0 <= k < |ms| ==> f.evidenceIds[k] == ms[k].id && IsFirstWithId(evidence, ms[k].id, f.rendered[k])
  }

  ghost predicate IsFirstWithId(evidence: seq<Evidence>, id: string, e: Evidence) {
    exists i :: 0 <= i < |evidence| && evidence[i] == e && e.id == id
                && forall j :: 0 <= j < i ==> evidence[j].id != id
  }

  lemma {:induction false} LookUpIsFirst(evidence: seq<Evidence>, id: string) returns (i: nat)
    requires LookUp(evidence, id).Some?
    ensures i < |evidence| && evidence[i] == LookUp(evidence, id).value && evidence[i].id == id
    ensures forall j :: 0 <= j < i ==> evidence[j].id != id
  {
    if evidence[0].id == id {
      i := 0;
    } else {
      i := LookUpIsFirst(evidence[1..], id);
      i := i + 1;
    }
  }

  /**
    What one rule yields: the items taken first each time, reported, if they reach the last clause, and
    otherwise nothing.
   */
  lemma YieldsMeans(rule: Rule, evidence: seq<Evidence>, findings: seq<Finding>)
    requires Yields(rule, evidence, findings)
    ensures |findings| <= 1
    ensures findings != [] ==> exists ms :: |ms| == |rule.clauses| && IsFirstEach(rule, evidence, ms)
                                            && IsCoherent(rule, evidence, ms) && Spells(findings[0], rule, evidence, ms)
    ensures findings == [] ==> exists ms :: |ms| < |rule.clauses| && IsFirstEach(rule, evidence, ms)
                                            && forall e :: e in evidence ==> !IsCoherent(rule, evidence, ms + [e])
  {
    hide IsGreedy, IsFirstEach, IsCoherent, IsChoice, Accepts;
    if findings == [] {
      var ms :| IsStuck(rule, evidence, ms);
      GreedyIff(rule, evidence, ms);
      GreedyIsChoice(rule, evidence, ms);
      ChoiceIff(rule, evidence, ms);
      forall e | e in evidence ensures !IsCoherent(rule, evidence, ms + [e]) {
        AcceptsIff(rule, evidence, ms, e);
      }
    } else {
      var ms: seq<Evidence> :| IsMatch(rule, evidence, Some(ms)) && Reports(findings[0], rule, evidence, ms);
      GreedyIff(rule, evidence, ms);
      GreedyIsChoice(rule, evidence, ms);
      ChoiceIff(rule, evidence, ms);
      forall k | 0 <= k < |ms| ensures IsFirstWithId(evidence, ms[k].id, findings[0].rendered[k]) {
        var i := LookUpIsFirst(evidence, ms[k].id);
      }
      assert Spells(findings[0], rule, evidence, ms);
    }
  }

  /** The findings come from rules at increasing positions, one each, and the other rules yield none. */
  ghost predicate FollowRules(rules: seq<Rule>, evidence: seq<Evidence>, findings: seq<Finding>, ps: seq<nat>) {
    && Increasing(ps) && |ps| == |findings|
    && (forall k :: 0 <= k < |ps| ==> ps[k] < |rules| && Yields(rules[ps[k]], evidence, [findings[k]]))
    && (forall p :: 0 <= p < |rules| && p !in ps ==> Yields(rules[p], evidence, []))
  }

  /** The findings are those of the rules, in rule order. */
  lemma FindingsFollowRules(rules: seq<Rule>, evidence: seq<Evidence>, findings: seq<Finding>)
    requires AreFindings(rules, evidence, findings)
    ensures exists ps :: FollowRules(rules, evidence, findings, ps)
  {
    var parts: seq<seq<Finding>> :|
      |parts| == |rules| && findings == Concat(parts)
      && forall k :: 0 <= k < |rules| ==> Yields(rules[k], evidence, parts[k]);
    forall k | 0 <= k < |parts| ensures |parts[k]| <= 1 {
      YieldsAtMostOne(rules[k], evidence, parts[k]);
    }
    var nonEmpty := (part: seq<Finding>) => part != [];
    var ps := Positions(nonEmpty, parts);
    hide Yields, Concat;
    ConcatPicks(parts);
    PositionsIncrease(nonEmpty, parts);
    forall k | 0 <= k < |ps| ensures ps[k] < |rules| && Yields(rules[ps[k]], evidence, [findings[k]]) {
      assert ps[k] < |parts| && parts[ps[k]] == [findings[k]];
    }
    forall p | 0 <= p < |rules| && p !in ps ensures Yields(rules[p], evidence, []) {
      PositionsIff(nonEmpty, parts, p);
      assert parts[p] == [];
    }
    assert FollowRules(rules, evidence, findings, ps);
  }

  /** Parts of at most one element, put together, are the elements of the nonempty ones. */
  lemma {:induction false} ConcatPicks(parts: seq<seq<Finding>>)
    requires forall k :: 0 <= k < |parts| ==> |parts[k]| <= 1
    ensures var ps, all := Positions((part: seq<Finding>) => part != [], parts), Concat(parts);
            |ps| == |all| && forall k :: 0 <= k < |ps| ==> ps[k] < |parts| && parts[ps[k]] == [all[k]]
  {
    if parts != [] {
      var n := |parts| - 1;
      ConcatPicks(parts[..n]);
    }
  }

  lemma YieldsAtMostOne(rule: Rule, evidence: seq<Evidence>, findings: seq<Finding>)
    requires Yields(rule, evidence, findings)
    ensures |findings| <= 1
  {}
}
