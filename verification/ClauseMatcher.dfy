/**
  The greedy clause matcher: each clause takes the first evidence item that fits the
  subject and time latched from the items before it.
 */
module ClauseMatcher {
  import opened Wrappers
  import opened MachineInts
  import Strings

  datatype Source = Sigma | Yara | Suricata | Zeek | Artifact | Memory | Custom(name: string)

  datatype Subject =
    | Host(host: string)
    | Process(pid: nat)
    | Session(session: string)
    | Socket(socket: string)
    | File(path: string)

  /** Timestamps are in nanoseconds. */
  datatype Evidence = Evidence(
    id: string,
    source: Source,
    subject: Option<Subject>,
    timestamp: Option<int>,
    attrs: map<string, string>,
    tags: seq<string>)

  datatype AttrPredicate =
    | Equals(key: string, value: string)
    | Contains(key: string, part: string)
    | AnyOf(key: string, values: seq<string>)

  datatype Clause = Clause(source: Source, requiredTag: string, attrPredicates: seq<AttrPredicate>)

  datatype Rule = Rule(id: string, title: string, severity: string, withinSeconds: Option<int>, clauses: seq<Clause>)

  /** The rendered lines are represented by the items they render. */
  datatype Finding = Finding(
    ruleId: string,
    title: string,
    severity: string,
    evidenceIds: seq<string>,
    rendered: seq<Evidence>)

  // ---- one item against one clause

  predicate AttrMatches(item: Evidence, p: AttrPredicate) {
    && p.key in item.attrs
    && match p
       case Equals(key, value) => item.attrs[key] == value
       case Contains(key, part) => Strings.Contains(item.attrs[key], part)
       case AnyOf(key, values) => item.attrs[key] in values
  }

  /** Source, tag and attributes of the clause. */
  predicate Suits(item: Evidence, clause: Clause) {
    && item.source == clause.source
    && (clause.requiredTag == "" || clause.requiredTag in item.tags)
    && forall p | p in clause.attrPredicates :: AttrMatches(item, p)
  }

  predicate SubjectMatches(anchor: Option<Subject>, candidate: Option<Subject>) {
    anchor.Some? ==> candidate == anchor
  }

  /** Whole seconds between the stamps, truncated; a missing candidate stamp fails once an anchor is latched. */
  predicate WithinWindow(anchor: Option<int>, candidate: Option<int>, window: Option<int>) {
    window.Some? && anchor.Some? ==> candidate.Some? && Abs(candidate.value - anchor.value) / NANOS <= window.value
  }

  // ---- choices of one item a clause

  function FirstSubject(ms: seq<Evidence>): Option<Subject> {
    if ms == [] then None
    else
      var before := FirstSubject(ms[..|ms| - 1]);
      if before.Some? then before else ms[|ms| - 1].subject
  }

  function FirstTime(ms: seq<Evidence>): Option<int> {
    if ms == [] then None
    else
      var before := FirstTime(ms[..|ms| - 1]);
      if before.Some? then before else ms[|ms| - 1].timestamp
  }

  /** The item may follow the items `ms` as the match of `clause`. */
  predicate Accepts(rule: Rule, clause: Clause, ms: seq<Evidence>, item: Evidence) {
    && Suits(item, clause)
    && SubjectMatches(FirstSubject(ms), item.subject)
    && WithinWindow(FirstTime(ms), item.timestamp, rule.withinSeconds)
  }

  /** `ms` matches the first clauses of the rule, each item fitting those before it. */
  ghost predicate IsChoice(rule: Rule, evidence: seq<Evidence>, ms: seq<Evidence>) {
    && |ms| <= |rule.clauses|
    && forall k :: 0 <= k < |ms| ==> ms[k] in evidence && Accepts(rule, rule.clauses[k], ms[..k], ms[k])
  }

  ghost predicate IsFullChoice(rule: Rule, evidence: seq<Evidence>, ms: seq<Evidence>) {
    |ms| == |rule.clauses| && IsChoice(rule, evidence, ms)
  }

  // ---- the greedy choice

  /** `item` is the first in the list that the clause accepts after `ms`. */
  ghost predicate IsFirstAccepted(rule: Rule, clause: Clause, evidence: seq<Evidence>, ms: seq<Evidence>,
                                  item: Evidence)
  {
    exists i :: 0 <= i < |evidence| && evidence[i] == item && Accepts(rule, clause, ms, item)
                && forall j :: 0 <= j < i ==> !Accepts(rule, clause, ms, evidence[j])
  }

  /** Every item of `ms` is the first that could follow those before it. */
  ghost predicate IsGreedy(rule: Rule, evidence: seq<Evidence>, ms: seq<Evidence>) {
    && |ms| <= |rule.clauses|
    && forall k :: 0 <= k < |ms| ==> IsFirstAccepted(rule, rule.clauses[k], evidence, ms[..k], ms[k])
  }

  /** The greedy choice gets as far as `ms` and no further. */
  ghost predicate IsStuck(rule: Rule, evidence: seq<Evidence>, ms: seq<Evidence>) {
    && IsGreedy(rule, evidence, ms) && |ms| < |rule.clauses|
    && forall e :: e in evidence ==> !Accepts(rule, rule.clauses[|ms|], ms, e)
  }

  /** The result of matching: the full greedy choice, or none where it is stuck. */
  ghost predicate IsMatch(rule: Rule, evidence: seq<Evidence>, r: Option<seq<Evidence>>) {
    if r.Some? then IsGreedy(rule, evidence, r.value) && |r.value| == |rule.clauses|
    else exists ms :: IsStuck(rule, evidence, ms)
  }

  method FindAccepted(rule: Rule, clause: Clause, evidence: seq<Evidence>,
                      anchorSubject: Option<Subject>, anchorTimestamp: Option<int>, ghost ms: seq<Evidence>)
    returns (r: Option<Evidence>)
    requires anchorSubject == FirstSubject(ms) && anchorTimestamp == FirstTime(ms)
    ensures r.None? ==> forall e :: e in evidence ==> !Accepts(rule, clause, ms, e)
    ensures r.Some? ==> IsFirstAccepted(rule, clause, evidence, ms, r.value)
  {
    for i := 0 to |evidence|
      invariant forall j :: 0 <= j < i ==> !Accepts(rule, clause, ms, evidence[j])
    {
      var item := evidence[i];
      if Suits(item, clause)
         && SubjectMatches(anchorSubject, item.subject)
         && WithinWindow(anchorTimestamp, item.timestamp, rule.withinSeconds)
      {
        return Some(item);
      }
    }
    return None;
  }

  method MatchRule(rule: Rule, evidence: seq<Evidence>) returns (r: Option<seq<Evidence>>)
    ensures IsMatch(rule, evidence, r)
  {
    hide Accepts, IsFirstAccepted, FirstSubject, FirstTime;
    var matched: seq<Evidence> := [];
    var anchorSubject: Option<Subject> := None;
    var anchorTimestamp: Option<int> := None;
    NothingLatched();
    for k := 0 to |rule.clauses|
      invariant |matched| == k && IsGreedy(rule, evidence, matched)
      invariant anchorSubject == FirstSubject(matched) && anchorTimestamp == FirstTime(matched)
    {
      var candidate := FindAccepted(rule, rule.clauses[k], evidence, anchorSubject, anchorTimestamp, matched);
      if candidate.None? {
        assert IsStuck(rule, evidence, matched);
        return None;
      }
      var item := candidate.value;
      Latches(matched, item);
      if anchorSubject.None? {
        anchorSubject := item.subject;
      }
      if anchorTimestamp.None? {
        anchorTimestamp := item.timestamp;
      }
      GreedyGrows(rule, evidence, matched, item);
      matched := matched + [item];
    }
    r := Some(matched);
  }

  lemma NothingLatched()
    ensures FirstSubject([]).None? && FirstTime([]).None?
  {}

  lemma Latches(ms: seq<Evidence>, item: Evidence)
    ensures FirstSubject(ms + [item]) == if FirstSubject(ms).Some? then FirstSubject(ms) else item.subject
    ensures FirstTime(ms + [item]) == if FirstTime(ms).Some? then FirstTime(ms) else item.timestamp
  {
    assert (ms + [item])[..|ms|] == ms;
  }

  lemma GreedyGrows(rule: Rule, evidence: seq<Evidence>, ms: seq<Evidence>, item: Evidence)
    requires IsGreedy(rule, evidence, ms) && |ms| < |rule.clauses|
    requires IsFirstAccepted(rule, rule.clauses[|ms|], evidence, ms, item)
    ensures IsGreedy(rule, evidence, ms + [item])
  {
    hide IsFirstAccepted;
    var longer := ms + [item];
    forall j | 0 <= j < |longer| ensures IsFirstAccepted(rule, rule.clauses[j], evidence, longer[..j], longer[j]) {
      if j < |ms| {
        assert longer[..j] == ms[..j] && longer[j] == ms[j];
      } else {
        assert longer[..j] == ms;
      }
    }
  }

  /** The items that the ids of the matched items look up: the first with that id. */
  function LookUp(evidence: seq<Evidence>, id: string): (r: Option<Evidence>)
    ensures r.None? ==> forall e :: e in evidence ==> e.id != id
    ensures r.Some? ==> r.value in evidence && r.value.id == id
  {
    if evidence == [] then None else if evidence[0].id == id then Some(evidence[0]) else LookUp(evidence[1..], id)
  }

  /** The finding of a full choice: one evidence id and one rendered line a clause. */
  ghost predicate Reports(f: Finding, rule: Rule, evidence: seq<Evidence>, ms: seq<Evidence>) {
    && (f.ruleId, f.title, f.severity) == (rule.id, rule.title, rule.severity)
    && |f.evidenceIds| == |f.rendered| == |ms|
    && forall k :: 0 <= k < |ms| ==>
         f.evidenceIds[k] == ms[k].id && LookUp(evidence, ms[k].id) == Some(f.rendered[k])
  }

  /** The rule yields `findings`: its full greedy choice reported, or nothing where the choice is stuck. */
  ghost predicate Yields(rule: Rule, evidence: seq<Evidence>, findings: seq<Finding>) {
    || (findings == [] && IsMatch(rule, evidence, None))
    || (|findings| == 1 && exists ms :: IsMatch(rule, evidence, Some(ms)) && Reports(findings[0], rule, evidence, ms))
  }

  method ReportRule(rule: Rule, evidence: seq<Evidence>, ms: seq<Evidence>) returns (f: Finding)
    requires forall m :: m in ms ==> m in evidence
    ensures Reports(f, rule, evidence, ms)
  {
    var ids, rendered := [], [];
    for k := 0 to |ms|
      invariant |ids| == |rendered| == k
      invariant forall j :: 0 <= j < k ==> ids[j] == ms[j].id && LookUp(evidence, ms[j].id) == Some(rendered[j])
    {
      assert ms[k] in ms;
      ids := ids + [ms[k].id];
      var hit := LookUp(evidence, ms[k].id);
      if hit.Some? {
        rendered := rendered + [hit.value];
      }
    }
    f := Finding(rule.id, rule.title, rule.severity, ids, rendered);
  }

  /** `findings` are the findings of the rules, in rule order. */
  ghost predicate AreFindings(rules: seq<Rule>, evidence: seq<Evidence>, findings: seq<Finding>) {
    exists parts: seq<seq<Finding>> ::
      |parts| == |rules| && findings == Concat(parts)
      && forall k :: 0 <= k < |rules| ==> Yields(rules[k], evidence, parts[k])
  }

  method Evaluate(rules: seq<Rule>, evidence: seq<Evidence>) returns (findings: seq<Finding>)
    ensures AreFindings(rules, evidence, findings)
  {
    hide IsMatch, Reports;
    findings := [];
    ghost var parts: seq<seq<Finding>> := [];
    for i := 0 to |rules|
      invariant |parts| == i && findings == Concat(parts)
      invariant forall k :: 0 <= k < i ==> Yields(rules[k], evidence, parts[k])
    {
      var ms := MatchRule(rules[i], evidence);
      ghost var part: seq<Finding> := [];
      if ms.Some? {
        MatchesComeFromEvidence(rules[i], evidence, ms.value);
        var f := ReportRule(rules[i], evidence, ms.value);
        findings := findings + [f];
        part := [f];
      }
      assert (parts + [part])[..i] == parts;
      parts := parts + [part];
    }
  }

  function Concat(parts: seq<seq<Finding>>): seq<Finding> {
    if parts == [] then [] else Concat(parts[..|parts| - 1]) + parts[|parts| - 1]
  }

  lemma MatchesComeFromEvidence(rule: Rule, evidence: seq<Evidence>, ms: seq<Evidence>)
    requires IsMatch(rule, evidence, Some(ms))
    ensures IsFullChoice(rule, evidence, ms) && forall m :: m in ms ==> m in evidence
  {
    hide Accepts;
    forall k | 0 <= k < |ms| ensures ms[k] in evidence && Accepts(rule, rule.clauses[k], ms[..k], ms[k]) {
      assert IsFirstAccepted(rule, rule.clauses[k], evidence, ms[..k], ms[k]);
    }
  }

  // ---- laws of every choice

  lemma {:induction false} LatchedFromEarliest(ms: seq<Evidence>, i: nat)
    requires i < |ms|
    ensures ms[i].subject.Some? ==> FirstSubject(ms).Some?
    ensures ms[i].timestamp.Some? ==> FirstTime(ms).Some?
    decreases |ms|
  {
    if i < |ms| - 1 {
      LatchedFromEarliest(ms[..|ms| - 1], i);
    }
  }

  /** What has latched stays latched. */
  lemma {:induction false} LatchIsKept(ms: seq<Evidence>, n: nat)
    requires n <= |ms|
    ensures FirstSubject(ms[..n]).Some? ==> FirstSubject(ms) == FirstSubject(ms[..n])
    ensures FirstTime(ms[..n]).Some? ==> FirstTime(ms) == FirstTime(ms[..n])
    decreases |ms|
  {
    if n == |ms| {
      assert ms[..n] == ms;
    } else {
      var init := ms[..|ms| - 1];
      assert init[..n] == ms[..n];
      LatchIsKept(init, n);
    }
  }

  lemma LatchAfter(ms: seq<Evidence>, i: nat)
    requires i < |ms|
    ensures var before, after := FirstSubject(ms[..i]), FirstSubject(ms[..i + 1]);
            after == if before.Some? then before else ms[i].subject
    ensures var before, after := FirstTime(ms[..i]), FirstTime(ms[..i + 1]);
            after == if before.Some? then before else ms[i].timestamp
  {
    assert ms[..i + 1][..i] == ms[..i];
  }

  /** Along a choice, every present subject is the latched one, and every present stamp is within its window. */
  lemma ChoiceAgreesWithLatch(rule: Rule, evidence: seq<Evidence>, ms: seq<Evidence>, i: nat)
    requires IsChoice(rule, evidence, ms) && i < |ms|
    ensures ms[i].subject.Some? ==> ms[i].subject == FirstSubject(ms)
    ensures ms[i].timestamp.Some? && rule.withinSeconds.Some? ==>
              ms[i].timestamp == FirstTime(ms)
              || (FirstTime(ms).Some?
                  && Abs(ms[i].timestamp.value - FirstTime(ms).value) / NANOS <= rule.withinSeconds.value)
  {
    hide Suits, FirstSubject, FirstTime;
    assert Accepts(rule, rule.clauses[i], ms[..i], ms[i]);
    LatchAfter(ms, i);
    LatchIsKept(ms, i);
    LatchIsKept(ms, i + 1);
  }

  /** Present subjects of a choice are equal; two present stamps are less than twice (window + 1) seconds apart. */
  lemma ChoicesAreCoherent(rule: Rule, evidence: seq<Evidence>, ms: seq<Evidence>, i: nat, j: nat)
    requires IsChoice(rule, evidence, ms) && i < |ms| && j < |ms|
    ensures ms[i].subject.Some? && ms[j].subject.Some? ==> ms[i].subject == ms[j].subject
    ensures ms[i].timestamp.Some? && ms[j].timestamp.Some?
            && rule.withinSeconds.Some? && rule.withinSeconds.value >= 0 ==>
              Abs(ms[i].timestamp.value - ms[j].timestamp.value) < 2 * (rule.withinSeconds.value + 1) * NANOS
  {
    ChoiceAgreesWithLatch(rule, evidence, ms, i);
    ChoiceAgreesWithLatch(rule, evidence, ms, j);
    LatchedFromEarliest(ms, i);
  }

  // ---- which partial choices can be completed

  /** Some full choice begins with `ms`. */
  ghost predicate Extendable(rule: Rule, evidence: seq<Evidence>, ms: seq<Evidence>) {
    exists fs :: IsFullChoice(rule, evidence, fs) && ms <= fs
  }

  /**
    Where a choice latches: the clause whose item brings the subject and the one whose item brings the
    stamp, with both values. A position past the clauses means never.
   */
  datatype Profile = Profile(subjectAt: nat, subject: Subject, timeAt: nat, time: int)

  /** The item can stand at clause `k` of a choice with that profile. */
  predicate Fits(rule: Rule, p: Profile, k: nat, e: Evidence)
    requires k < |rule.clauses|
  {
    && Suits(e, rule.clauses[k])
    && (e.subject == if k < p.subjectAt then None else Some(p.subject))
    && (rule.withinSeconds.Some? ==>
          if k < p.timeAt then e.timestamp.None?
          else if k == p.timeAt then e.timestamp == Some(p.time)
          else WithinWindow(Some(p.time), e.timestamp, rule.withinSeconds))
  }

  ghost predicate HasFit(rule: Rule, evidence: seq<Evidence>, p: Profile, k: nat)
    requires k < |rule.clauses|
  {
    exists e :: e in evidence && Fits(rule, p, k, e)
  }

  /** The profile is that of the items chosen so far. */
  predicate IsProfileOf(rule: Rule, p: Profile, ms: seq<Evidence>) {
    && (if FirstSubject(ms).Some? then p.subjectAt < |ms| && FirstSubject(ms) == Some(p.subject)
        else |ms| <= p.subjectAt)
    && (rule.withinSeconds.Some? ==>
          if FirstTime(ms).Some? then p.timeAt < |ms| && FirstTime(ms) == Some(p.time)
          else |ms| <= p.timeAt)
  }

  /** Every clause from the `from`th on has an item that fits the profile. */
  ghost predicate Supported(rule: Rule, evidence: seq<Evidence>, p: Profile, from: nat) {
    forall k :: from <= k < |rule.clauses| ==> HasFit(rule, evidence, p, k)
  }

  /** The items chosen so far leave, for some profile of theirs, a fitting item for each remaining clause. */
  ghost predicate Supportable(rule: Rule, evidence: seq<Evidence>, ms: seq<Evidence>) {
    exists p :: IsProfileOf(rule, p, ms) && Supported(rule, evidence, p, |ms|)
  }

  lemma {:induction false} SubjectPoint(fs: seq<Evidence>) returns (i: nat)
    ensures i <= |fs| && (i < |fs| ==> fs[i].subject.Some?)
    ensures forall k :: 0 <= k <= |fs| ==> FirstSubject(fs[..k]) == if i < k then fs[i].subject else None
  {
    if fs == [] {
      i := 0;
    } else {
      var n := |fs| - 1;
      i := SubjectPoint(fs[..n]);
      assert forall k :: 0 <= k <= n ==> fs[..n][..k] == fs[..k];
      assert fs[..|fs|] == fs;
      if i == n && fs[n].subject.None? {
        i := n + 1;
      }
    }
  }

  lemma {:induction false} TimePoint(fs: seq<Evidence>) returns (i: nat)
    ensures i <= |fs| && (i < |fs| ==> fs[i].timestamp.Some?)
    ensures forall k :: 0 <= k <= |fs| ==> FirstTime(fs[..k]) == if i < k then fs[i].timestamp else None
  {
    if fs == [] {
      i := 0;
    } else {
      var n := |fs| - 1;
      i := TimePoint(fs[..n]);
      assert forall k :: 0 <= k <= n ==> fs[..n][..k] == fs[..k];
      assert fs[..|fs|] == fs;
      if i == n && fs[n].timestamp.None? {
        i := n + 1;
      }
    }
  }

  /** The profile of a full choice supports it from any of its prefixes on. */
  lemma ProfileOfChoice(rule: Rule, evidence: seq<Evidence>, fs: seq<Evidence>, m: nat) returns (p: Profile)
    requires IsFullChoice(rule, evidence, fs) && m <= |fs|
    ensures IsProfileOf(rule, p, fs[..m]) && Supported(rule, evidence, p, m)
  {
    hide FirstSubject, FirstTime, Suits;
    var i := SubjectPoint(fs);
    var j := TimePoint(fs);
    p := Profile(i, if i < |fs| then fs[i].subject.value else Host(""),
                 j, if j < |fs| then fs[j].timestamp.value else 0);
    forall k | m <= k < |fs| ensures HasFit(rule, evidence, p, k) {
      assert fs[k] in evidence && Accepts(rule, rule.clauses[k], fs[..k], fs[k]);
      LatchOfOne(fs, k, i, j);
      assert Fits(rule, p, k, fs[k]);
    }
  }

  /** The item at clause `k` brings nothing before the latch points. */
  lemma LatchOfOne(fs: seq<Evidence>, k: nat, i: nat, j: nat)
    requires k < |fs| && i <= |fs| && j <= |fs|
    requires forall n :: 0 <= n <= |fs| ==> FirstSubject(fs[..n]) == if i < n then fs[i].subject else None
    requires forall n :: 0 <= n <= |fs| ==> FirstTime(fs[..n]) == if j < n then fs[j].timestamp else None
    ensures k < i ==> fs[k].subject.None?
    ensures k < j ==> fs[k].timestamp.None?
  {
    assert fs[..k + 1][..k] == fs[..k];
    assert fs[..k + 1][k] == fs[k];
  }

  lemma {:induction false} SupportedIsExtendable(rule: Rule, evidence: seq<Evidence>, ms: seq<Evidence>, p: Profile)
    requires IsChoice(rule, evidence, ms) && IsProfileOf(rule, p, ms) && Supported(rule, evidence, p, |ms|)
    ensures Extendable(rule, evidence, ms)
    decreases |rule.clauses| - |ms|
  {
    if |ms| < |rule.clauses| {
      assert HasFit(rule, evidence, p, |ms|);
      var e :| e in evidence && Fits(rule, p, |ms|, e);
      FittingExtends(rule, evidence, ms, p, e);
      hide IsChoice, IsProfileOf, HasFit, Fits;
      SupportedIsExtendable(rule, evidence, ms + [e], p);
      var fs :| IsFullChoice(rule, evidence, fs) && ms + [e] <= fs;
      assert ms <= fs;
    } else {
      assert IsFullChoice(rule, evidence, ms) && ms <= ms;
    }
  }

  lemma FittingExtends(rule: Rule, evidence: seq<Evidence>, ms: seq<Evidence>, p: Profile, e: Evidence)
    requires IsChoice(rule, evidence, ms) && IsProfileOf(rule, p, ms) && |ms| < |rule.clauses|
    requires e in evidence && Fits(rule, p, |ms|, e)
    ensures IsChoice(rule, evidence, ms + [e]) && IsProfileOf(rule, p, ms + [e])
  {
    Latches(ms, e);
    hide FirstSubject, FirstTime, Suits;
    assert Accepts(rule, rule.clauses[|ms|], ms, e);
    ChoiceGrows(rule, evidence, ms, e);
  }

  lemma ChoiceGrows(rule: Rule, evidence: seq<Evidence>, ms: seq<Evidence>, e: Evidence)
    requires IsChoice(rule, evidence, ms) && |ms| < |rule.clauses|
    requires e in evidence && Accepts(rule, rule.clauses[|ms|], ms, e)
    ensures IsChoice(rule, evidence, ms + [e])
  {
    hide Accepts;
    var longer := ms + [e];
    forall k | 0 <= k < |longer|
      ensures longer[k] in evidence && Accepts(rule, rule.clauses[k], longer[..k], longer[k])
    {
      assert longer[..k] == if k < |ms| then ms[..k] else ms;
    }
  }

  /**
    A choice can be completed exactly when it is supportable, which is looked up clause by clause. With
    no items chosen this says when the evidence satisfies the rule at all.
   */
  lemma ExtendableIff(rule: Rule, evidence: seq<Evidence>, ms: seq<Evidence>)
    requires IsChoice(rule, evidence, ms)
    ensures Extendable(rule, evidence, ms) <==> Supportable(rule, evidence, ms)
  {
    hide IsChoice, IsProfileOf, Supported;
    if fs :| IsFullChoice(rule, evidence, fs) && ms <= fs {
      var p := ProfileOfChoice(rule, evidence, fs, |ms|);
      assert fs[..|ms|] == ms;
    }
    if p :| IsProfileOf(rule, p, ms) && Supported(rule, evidence, p, |ms|) {
      SupportedIsExtendable(rule, evidence, ms, p);
    }
  }

  // ---- when the greedy choice misses a match

  /** Subject and, if the rule has a window, time have been latched. */
  predicate FullyLatched(rule: Rule, ms: seq<Evidence>) {
    FirstSubject(ms).Some? && (rule.withinSeconds.Some? ==> FirstTime(ms).Some?)
  }

  /** Once everything is latched it does not matter which acceptable item is taken. */
  lemma LatchedPicksAreEqual(rule: Rule, evidence: seq<Evidence>, ms: seq<Evidence>, x: Evidence, y: Evidence)
    requires IsChoice(rule, evidence, ms) && FullyLatched(rule, ms) && |ms| < |rule.clauses|
    requires x in evidence && Accepts(rule, rule.clauses[|ms|], ms, x)
    requires y in evidence && Accepts(rule, rule.clauses[|ms|], ms, y)
    requires Extendable(rule, evidence, ms + [y])
    ensures Extendable(rule, evidence, ms + [x])
  {
    Latches(ms, x);
    Latches(ms, y);
    ChoiceGrows(rule, evidence, ms, x);
    ChoiceGrows(rule, evidence, ms, y);
    ExtendableIff(rule, evidence, ms + [x]);
    ExtendableIff(rule, evidence, ms + [y]);
    hide Accepts, IsChoice, FirstSubject, FirstTime, Extendable, Supported;
    assert Supportable(rule, evidence, ms + [y]);
    var p :| IsProfileOf(rule, p, ms + [y]) && Supported(rule, evidence, p, |ms + [y]|);
    assert IsProfileOf(rule, p, ms + [x]);
  }

  /**
    The greedy choice takes `x` after `ms`, while something is still to be latched, and some later clause
    then lacks an item; with `y` in its place none would.
   */
  ghost predicate WrongTurn(rule: Rule, evidence: seq<Evidence>, ms: seq<Evidence>, x: Evidence, y: Evidence) {
    && |ms| < |rule.clauses| && IsGreedy(rule, evidence, ms) && !FullyLatched(rule, ms)
    && IsFirstAccepted(rule, rule.clauses[|ms|], evidence, ms, x) && !Supportable(rule, evidence, ms + [x])
    && y in evidence && Accepts(rule, rule.clauses[|ms|], ms, y) && Supportable(rule, evidence, ms + [y])
  }

  lemma NextExtendableIff(rule: Rule, evidence: seq<Evidence>, ms: seq<Evidence>, e: Evidence)
    requires IsGreedy(rule, evidence, ms) && |ms| < |rule.clauses|
    requires e in evidence && Accepts(rule, rule.clauses[|ms|], ms, e)
    ensures Extendable(rule, evidence, ms + [e]) <==> Supportable(rule, evidence, ms + [e])
  {
    hide Accepts, Extendable, Supportable;
    GreedyIsChoice(rule, evidence, ms);
    ChoiceGrows(rule, evidence, ms, e);
    ExtendableIff(rule, evidence, ms + [e]);
  }

  lemma FirstAcceptedIsUnique(rule: Rule, clause: Clause, evidence: seq<Evidence>, ms: seq<Evidence>, x: Evidence,
                              y: Evidence)
    requires IsFirstAccepted(rule, clause, evidence, ms, x) && IsFirstAccepted(rule, clause, evidence, ms, y)
    ensures x == y
  {
    hide Accepts;
  }

  lemma {:induction false} GreedyPrefix(rule: Rule, evidence: seq<Evidence>, a: seq<Evidence>, b: seq<Evidence>, k: nat)
    requires IsGreedy(rule, evidence, a) && IsGreedy(rule, evidence, b) && k <= |a| && k <= |b|
    ensures a[..k] == b[..k]
  {
    hide IsFirstAccepted;
    if k > 0 {
      GreedyPrefix(rule, evidence, a, b, k - 1);
      FirstAcceptedIsUnique(rule, rule.clauses[k - 1], evidence, a[..k - 1], a[k - 1], b[k - 1]);
      assert a[..k] == a[..k - 1] + [a[k - 1]] && b[..k] == b[..k - 1] + [b[k - 1]];
    }
  }

  lemma GreedyIsChoice(rule: Rule, evidence: seq<Evidence>, ms: seq<Evidence>)
    requires IsGreedy(rule, evidence, ms)
    ensures IsChoice(rule, evidence, ms)
  {
    hide Accepts;
    forall k | 0 <= k < |ms| ensures ms[k] in evidence && Accepts(rule, rule.clauses[k], ms[..k], ms[k]) {
      assert IsFirstAccepted(rule, rule.clauses[k], evidence, ms[..k], ms[k]);
    }
  }

  /** The last prefix of a stuck choice that a match still begins with is where the wrong turn was taken. */
  lemma {:induction false} TurnOf(rule: Rule, evidence: seq<Evidence>, g: seq<Evidence>, k: nat)
    returns (ms: seq<Evidence>, x: Evidence, y: Evidence)
    requires IsGreedy(rule, evidence, g) && k <= |g|
    requires !Extendable(rule, evidence, g[..k]) && Extendable(rule, evidence, [])
    ensures WrongTurn(rule, evidence, ms, x, y)
    decreases k
  {
    hide Extendable, Supportable, FullyLatched, IsFirstAccepted, Accepts;
    assert g[..0] == [];
    ms, x := g[..k - 1], g[k - 1];
    assert g[..k] == ms + [x];
    if Extendable(rule, evidence, ms) {
      GreedyCut(rule, evidence, g, k - 1);
      assert IsFirstAccepted(rule, rule.clauses[k - 1], evidence, ms, x);
      y := NextOfMatch(rule, evidence, ms);
      AcceptedFacts(rule, evidence, ms, x);
      GreedyIsChoice(rule, evidence, ms);
      NextExtendableIff(rule, evidence, ms, x);
      NextExtendableIff(rule, evidence, ms, y);
      if FullyLatched(rule, ms) {
        LatchedPicksAreEqual(rule, evidence, ms, x, y);
      }
    } else {
      ms, x, y := TurnOf(rule, evidence, g, k - 1);
    }
  }

  lemma AcceptedFacts(rule: Rule, evidence: seq<Evidence>, ms: seq<Evidence>, x: Evidence)
    requires |ms| < |rule.clauses| && IsFirstAccepted(rule, rule.clauses[|ms|], evidence, ms, x)
    ensures x in evidence && Accepts(rule, rule.clauses[|ms|], ms, x)
  {
    hide Accepts;
  }

  lemma GreedyCut(rule: Rule, evidence: seq<Evidence>, g: seq<Evidence>, k: nat)
    requires IsGreedy(rule, evidence, g) && k <= |g|
    ensures IsGreedy(rule, evidence, g[..k])
  {
    hide IsFirstAccepted;
    assert forall j :: 0 <= j < k ==> g[..k][..j] == g[..j];
  }

  /** What a match that begins with `ms` takes next. */
  lemma NextOfMatch(rule: Rule, evidence: seq<Evidence>, ms: seq<Evidence>) returns (y: Evidence)
    requires Extendable(rule, evidence, ms) && |ms| < |rule.clauses|
    ensures y in evidence && Accepts(rule, rule.clauses[|ms|], ms, y) && Extendable(rule, evidence, ms + [y])
  {
    hide Accepts;
    var fs :| IsFullChoice(rule, evidence, fs) && ms <= fs;
    y := fs[|ms|];
    assert fs[..|ms|] == ms && ms + [y] <= fs;
  }

  lemma StuckIsNotExtendable(rule: Rule, evidence: seq<Evidence>, ms: seq<Evidence>)
    requires IsStuck(rule, evidence, ms)
    ensures !Extendable(rule, evidence, ms)
  {
    hide Accepts;
    if Extendable(rule, evidence, ms) {
      var y := NextOfMatch(rule, evidence, ms);
    }
  }

  /**
    For every rule and every evidence: the greedy choice misses a match that exists exactly when it takes
    a wrong turn, and it can only take one while subject or time is still unlatched.
   */
  lemma GreedyMissesIff(rule: Rule, evidence: seq<Evidence>, r: Option<seq<Evidence>>)
    requires IsMatch(rule, evidence, r)
    ensures r.None? && (exists fs :: IsFullChoice(rule, evidence, fs)) <==>
            exists ms, x, y :: WrongTurn(rule, evidence, ms, x, y)
  {
    hide IsGreedy, IsFirstAccepted, Accepts, FullyLatched, Supportable;
    if r.None? {
      if fs :| IsFullChoice(rule, evidence, fs) {
        assert [] <= fs;
        var g :| IsStuck(rule, evidence, g);
        StuckIsNotExtendable(rule, evidence, g);
        assert g[..|g|] == g;
        var ms, x, y := TurnOf(rule, evidence, g, |g|);
      }
    }
    if ms, x, y :| WrongTurn(rule, evidence, ms, x, y) {
      AcceptedFacts(rule, evidence, ms, x);
      NextExtendableIff(rule, evidence, ms, x);
      NextExtendableIff(rule, evidence, ms, y);
      assert exists fs :: IsFullChoice(rule, evidence, fs);
      if r.Some? {
        GreedyContinues(rule, evidence, ms, x, r.value);
      }
    }
  }

  /** A full greedy choice goes on from each of its beginnings with the first acceptable item. */
  lemma GreedyContinues(rule: Rule, evidence: seq<Evidence>, ms: seq<Evidence>, x: Evidence, fs: seq<Evidence>)
    requires IsMatch(rule, evidence, Some(fs)) && |ms| < |rule.clauses| && IsGreedy(rule, evidence, ms)
    requires IsFirstAccepted(rule, rule.clauses[|ms|], evidence, ms, x)
    ensures Extendable(rule, evidence, ms + [x])
  {
    hide IsFirstAccepted;
    MatchesComeFromEvidence(rule, evidence, fs);
    GreedyGrows(rule, evidence, ms, x);
    GreedyPrefix(rule, evidence, ms + [x], fs, |ms| + 1);
    assert ms + [x] <= fs;
  }

  // ---- rules whose first clause latches everything

  /** An item that carries a subject and, if the rule has a window, a stamp. */
  predicate Anchors(rule: Rule, x: Evidence) {
    x.subject.Some? && (rule.withinSeconds.Some? ==> x.timestamp.Some?)
  }

  lemma {:induction false} FirstItemLatches(ms: seq<Evidence>)
    requires ms != []
    ensures ms[0].subject.Some? ==> FirstSubject(ms) == ms[0].subject
    ensures ms[0].timestamp.Some? ==> FirstTime(ms) == ms[0].timestamp
  {
    if |ms| > 1 {
      FirstItemLatches(ms[..|ms| - 1]);
    }
  }

  /** Clause `k` has an item that agrees with the anchor. */
  ghost predicate HasAgreeing(rule: Rule, evidence: seq<Evidence>, x: Evidence, k: nat)
    requires k < |rule.clauses|
  {
    exists e :: e in evidence && Accepts(rule, rule.clauses[k], [x], e)
  }

  /** Every later clause has an item that agrees with the anchor. */
  ghost predicate Completable(rule: Rule, evidence: seq<Evidence>, x: Evidence) {
    forall k :: 1 <= k < |rule.clauses| ==> HasAgreeing(rule, evidence, x, k)
  }

  lemma SameLatch(rule: Rule, clause: Clause, ms: seq<Evidence>, e: Evidence)
    requires ms != [] && Anchors(rule, ms[0])
    ensures Accepts(rule, clause, ms, e) <==> Accepts(rule, clause, [ms[0]], e)
  {
    FirstItemLatches(ms);
    FirstItemLatches([ms[0]]);
  }

  /** A match that begins with an anchor makes it completable. */
  lemma MatchCompletes(rule: Rule, evidence: seq<Evidence>, fs: seq<Evidence>)
    requires IsFullChoice(rule, evidence, fs) && fs != [] && Anchors(rule, fs[0])
    ensures Completable(rule, evidence, fs[0])
  {
    hide Accepts, Anchors;
    forall k | 1 <= k < |fs| ensures HasAgreeing(rule, evidence, fs[0], k) {
      assert fs[k] in evidence && Accepts(rule, rule.clauses[k], fs[..k], fs[k]);
      SameLatch(rule, rule.clauses[k], fs[..k], fs[k]);
    }
  }

  /** A completable anchor begins a match. */
  lemma CompletableBegins(rule: Rule, evidence: seq<Evidence>, x: Evidence)
    requires |rule.clauses| > 0 && x in evidence && Suits(x, rule.clauses[0]) && Anchors(rule, x)
    requires Completable(rule, evidence, x)
    ensures Extendable(rule, evidence, [x])
  {
    var p := Profile(0, x.subject.value, 0, if x.timestamp.Some? then x.timestamp.value else 0);
    NothingLatched();
    FirstItemLatches([x]);
    assert [] + [x] == [x];
    ChoiceGrows(rule, evidence, [], x);
    forall k | 1 <= k < |rule.clauses| ensures HasFit(rule, evidence, p, k) {
      assert HasAgreeing(rule, evidence, x, k);
      var e :| e in evidence && Accepts(rule, rule.clauses[k], [x], e);
      assert Fits(rule, p, k, e);
    }
    SupportedIsExtendable(rule, evidence, [x], p);
  }

  /** Once the first pick anchors, the rule matches exactly when every later clause has an item agreeing with it. */
  lemma AnchoredMatchIff(rule: Rule, evidence: seq<Evidence>, r: Option<seq<Evidence>>, x: Evidence)
    requires IsMatch(rule, evidence, r) && |rule.clauses| > 0
    requires IsFirstAccepted(rule, rule.clauses[0], evidence, [], x) && Anchors(rule, x)
    ensures r.Some? <==> Completable(rule, evidence, x)
  {
    hide Accepts, Anchors;
    if r.Some? {
      MatchesComeFromEvidence(rule, evidence, r.value);
      MatchCompletes(rule, evidence, r.value);
    } else {
      var ms :| IsStuck(rule, evidence, ms);
      StuckIsIncompletable(rule, evidence, ms, x);
    }
  }

  lemma StuckIsIncompletable(rule: Rule, evidence: seq<Evidence>, ms: seq<Evidence>, x: Evidence)
    requires IsStuck(rule, evidence, ms)
    requires IsFirstAccepted(rule, rule.clauses[0], evidence, [], x) && Anchors(rule, x)
    ensures !Completable(rule, evidence, x)
  {
    hide Accepts, Anchors;
    var k := |ms|;
    assert k == 0 ==> ms == [];
    forall e | e in evidence ensures !Accepts(rule, rule.clauses[k], [x], e) {
      SameLatch(rule, rule.clauses[k], ms, e);
    }
    assert !HasAgreeing(rule, evidence, x, k);
  }

  /** The item is the first in the list that suits the first clause. */
  ghost predicate IsFirstSuitable(rule: Rule, evidence: seq<Evidence>, x: Evidence)
    requires |rule.clauses| > 0
  {
    exists i :: 0 <= i < |evidence| && evidence[i] == x && Suits(x, rule.clauses[0])
                && forall j :: 0 <= j < i ==> !Suits(evidence[j], rule.clauses[0])
  }

  lemma FirstSuitableIsAccepted(rule: Rule, evidence: seq<Evidence>, x: Evidence)
    requires |rule.clauses| > 0 && IsFirstSuitable(rule, evidence, x)
    ensures IsFirstAccepted(rule, rule.clauses[0], evidence, [], x) && x in evidence
  {
    NothingLatched();
    hide Suits;
  }

  /**
    Where every item suiting the first clause anchors, the greedy choice misses an existing match exactly
    when the first such item is not completable and some other one is.
   */
  lemma AnchoredGreedyMissesIff(rule: Rule, evidence: seq<Evidence>, r: Option<seq<Evidence>>, x: Evidence)
    requires IsMatch(rule, evidence, r) && |rule.clauses| > 0 && IsFirstSuitable(rule, evidence, x)
    requires forall e :: e in evidence && Suits(e, rule.clauses[0]) ==> Anchors(rule, e)
    ensures r.None? && (exists fs :: IsFullChoice(rule, evidence, fs)) <==>
            && !Completable(rule, evidence, x)
            && exists y :: y in evidence && Suits(y, rule.clauses[0]) && Completable(rule, evidence, y)
  {
    FirstSuitableIsAccepted(rule, evidence, x);
    hide Suits, Anchors, Accepts, Completable, IsFirstAccepted, IsMatch;
    AnchoredMatchIff(rule, evidence, r, x);
    if fs :| IsFullChoice(rule, evidence, fs) {
      MatchCompletes(rule, evidence, fs);
    }
    if y :| y in evidence && Suits(y, rule.clauses[0]) && Completable(rule, evidence, y) {
      CompletableBegins(rule, evidence, y);
    }
  }

  /** If one item alone suits the first clause and it anchors, a match is found exactly when one exists. */
  lemma UniqueAnchorIsComplete(rule: Rule, evidence: seq<Evidence>, r: Option<seq<Evidence>>, x: Evidence)
    requires IsMatch(rule, evidence, r) && |rule.clauses| > 0
    requires x in evidence && Suits(x, rule.clauses[0]) && Anchors(rule, x)
    requires forall e :: e in evidence && Suits(e, rule.clauses[0]) ==> e == x
    ensures r.Some? <==> exists fs :: IsFullChoice(rule, evidence, fs)
  {
    var i := FirstIndex(evidence, x);
    hide Suits, Anchors, Accepts, Completable, IsMatch;
    assert forall j :: 0 <= j < i ==> evidence[j] in evidence;
    assert IsFirstSuitable(rule, evidence, x);
    AnchoredGreedyMissesIff(rule, evidence, r, x);
    if r.Some? {
      MatchesComeFromEvidence(rule, evidence, r.value);
    }
  }

  lemma {:induction false} FirstIndex(evidence: seq<Evidence>, x: Evidence) returns (i: nat)
    requires x in evidence
    ensures i < |evidence| && evidence[i] == x && forall j :: 0 <= j < i ==> evidence[j] != x
  {
    if evidence[0] == x {
      i := 0;
    } else {
      i := FirstIndex(evidence[1..], x);
      i := i + 1;
    }
  }

  /** Two candidates for the first clause, of which the later one has the match. */
  lemma GreedyIsIncomplete()
    ensures exists rule, evidence ::
              IsMatch(rule, evidence, None) && exists ms :: IsFullChoice(rule, evidence, ms)
  {
    var a := Evidence("a", Yara, Some(Host("h1")), None, map[], []);
    var b := Evidence("b", Yara, Some(Host("h2")), None, map[], []);
    var c := Evidence("c", Sigma, Some(Host("h2")), None, map[], []);
    var rule := Rule("r", "r", "high", None, [Clause(Yara, "", []), Clause(Sigma, "", [])]);
    var evidence := [a, b, c];
    NothingLatched();
    assert [a][..0] == [] && [b][..0] == [] && [b, c][..0] == [] && [b, c][..1] == [b];
    assert FirstSubject([a]) == a.subject && FirstSubject([b]) == b.subject;
    assert evidence[0] == a && IsFirstAccepted(rule, rule.clauses[0], evidence, [], a);
    assert IsStuck(rule, evidence, [a]);
    assert IsFullChoice(rule, evidence, [b, c]);
    hide IsStuck, IsFullChoice;
    assert IsMatch(rule, evidence, None);
  }
}
