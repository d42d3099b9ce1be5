/**
  Which stages a run executes: the single pass over the stage order, for any stage
  type, order and dependency function.
 */
module Planner {
  datatype Status = Done | Incomplete

  datatype Record = Record(status: Status, fingerprint: string)

  datatype Reason = Missing | Unfinished | Stale | UpstreamRerun

  datatype Action = Run(reason: Reason) | Skip

  /** The verdict on one stage from its own row alone. */
  function Base<S>(s: S, prior: map<S, Record>, fp: map<S, string>): Action
    requires s in fp
  {
    if s !in prior then Run(Missing)
    else if prior[s].status == Incomplete then Run(Unfinished)
    else if prior[s].fingerprint != fp[s] then Run(Stale)
    else Skip
  }

  function Verdict<S>(s: S, deps: S -> set<S>, running: set<S>, prior: map<S, Record>, fp: map<S, string>): Action
    requires s in fp
  {
    var base := Base(s, prior, fp);
    if base == Skip && deps(s) * running != {} then Run(UpstreamRerun) else base
  }

  // ---- the single pass

  /** The stages set running after a pass over `order`. */
  function Running<S>(order: seq<S>, deps: S -> set<S>, prior: map<S, Record>, fp: map<S, string>): set<S> {
    if order == [] then {}
    else
      var before, s := Running(order[..|order| - 1], deps, prior, fp), order[|order| - 1];
      if s in fp && Verdict(s, deps, before, prior, fp).Run? then before + {s} else before
  }

  /** The pass over `order`: each applicable stage with its verdict. */
  function PlanOf<S>(order: seq<S>, deps: S -> set<S>, prior: map<S, Record>, fp: map<S, string>): seq<(S, Action)> {
    if order == [] then []
    else
      var init, s := order[..|order| - 1], order[|order| - 1];
      PlanOf(init, deps, prior, fp)
      + if s in fp then [(s, Verdict(s, deps, Running(init, deps, prior, fp), prior, fp))] else []
  }

  method Plan<S(==)>(order: seq<S>, deps: S -> set<S>, prior: map<S, Record>, fp: map<S, string>)
    returns (out: seq<(S, Action)>)
    ensures out == PlanOf(order, deps, prior, fp)
  {
    var running: set<S> := {};
    out := [];
    for i := 0 to |order|
      invariant out == PlanOf(order[..i], deps, prior, fp)
      invariant running == Running(order[..i], deps, prior, fp)
    {
      var stage := order[i];
      assert order[..i + 1][..i] == order[..i];
      if stage !in fp {
        continue;
      }
      var base := if stage !in prior then Run(Missing)
                  else if prior[stage].status == Incomplete then Run(Unfinished)
                  else if prior[stage].fingerprint != fp[stage] then Run(Stale)
                  else Skip;
      var action := if base == Skip && deps(stage) * running != {} then Run(UpstreamRerun) else base;
      if action.Run? {
        running := running + {stage};
      }
      out := out + [(stage, action)];
    }
    assert order[..|order|] == order;
  }

  // ---- the plan as a fixpoint

  ghost predicate Distinct<S>(order: seq<S>) {
    forall i, j :: 0 <= i < j < |order| ==> order[i] != order[j]
  }

  /** No stage depends on a later one. */
  ghost predicate Topological<S>(order: seq<S>, deps: S -> set<S>) {
    forall i, j :: 0 <= i < j < |order| ==> order[j] !in deps(order[i])
  }

  ghost predicate Applicable<S>(s: S, order: seq<S>, fp: map<S, string>) { s in order && s in fp }

  /** `x` holds every applicable stage that must run by itself or because a dependency is in `x`. */
  ghost predicate Closed<S(!new)>(x: set<S>, order: seq<S>, deps: S -> set<S>, prior: map<S, Record>,
                                  fp: map<S, string>)
  {
    forall s :: Applicable(s, order, fp) && (Base(s, prior, fp).Run? || deps(s) * x != {}) ==> s in x
  }

  /** Whether a stage is listed, and with which verdict, depends on the final running set alone. */
  lemma {:induction false} PlanEntries<S(!new)>(order: seq<S>, deps: S -> set<S>, prior: map<S, Record>,
                                                fp: map<S, string>)
    requires Distinct(order) && Topological(order, deps)
    ensures var running := Running(order, deps, prior, fp);
            && (forall s :: s in running <==> Applicable(s, order, fp) && Verdict(s, deps, running, prior, fp).Run?)
            && (forall s, a :: (s, a) in PlanOf(order, deps, prior, fp) <==>
                               Applicable(s, order, fp) && a == Verdict(s, deps, running, prior, fp))
  {
    if order != [] {
      var init, last := order[..|order| - 1], order[|order| - 1];
      PlanEntries(init, deps, prior, fp);
      var before, after := Running(init, deps, prior, fp), Running(order, deps, prior, fp);
      assert order == init + [last];
      assert after == before || after == before + {last};
      forall s | Applicable(s, init, fp)
        ensures Verdict(s, deps, before, prior, fp) == Verdict(s, deps, after, prior, fp) && s != last
      {
        var i :| 0 <= i < |init| && init[i] == s;
        assert order[i] == s && last !in deps(s);
        assert deps(s) * before == deps(s) * after;
      }
      if last in fp {
        assert Verdict(last, deps, before, prior, fp) == Verdict(last, deps, after, prior, fp);
      }
    }
  }

  ghost predicate InOrder<S>(out: seq<(S, Action)>, deps: S -> set<S>) {
    forall i, j :: 0 <= i < j < |out| ==> out[j].0 != out[i].0 && out[j].0 !in deps(out[i].0)
  }

  /** The plan lists no stage twice and no stage after one that depends on it. */
  lemma {:induction false} PlanFollowsOrder<S(!new)>(order: seq<S>, deps: S -> set<S>, prior: map<S, Record>,
                                                     fp: map<S, string>)
    requires Distinct(order) && Topological(order, deps)
    ensures InOrder(PlanOf(order, deps, prior, fp), deps)
  {
    if order != [] {
      var init, last := order[..|order| - 1], order[|order| - 1];
      PlanFollowsOrder(init, deps, prior, fp);
      PlanEntries(init, deps, prior, fp);
      var out := PlanOf(init, deps, prior, fp);
      forall i | 0 <= i < |out| ensures last != out[i].0 && last !in deps(out[i].0) {
        var (s, a) := out[i];
        assert (s, a) in out;
        var k :| 0 <= k < |init| && init[k] == s;
        assert order[k] == s;
      }
      var all := PlanOf(order, deps, prior, fp);
      forall i, j | 0 <= i < j < |all| ensures all[j].0 != all[i].0 && all[j].0 !in deps(all[i].0) {
        assert all[i] == out[i];
        if j < |out| {
          assert all[j] == out[j];
        }
      }
    }
  }

  /** The verdict of the whole pass on one stage. */
  function ActionOf<S>(s: S, order: seq<S>, deps: S -> set<S>, prior: map<S, Record>, fp: map<S, string>): Action
    requires s in fp
  {
    Verdict(s, deps, Running(order, deps, prior, fp), prior, fp)
  }

  /** The pass read off stage by stage. */
  lemma PlanByStage<S(!new)>(order: seq<S>, deps: S -> set<S>, prior: map<S, Record>, fp: map<S, string>)
    requires Distinct(order) && Topological(order, deps) && forall s :: s in fp ==> s in order
    ensures var out := PlanOf(order, deps, prior, fp);
            && (forall k :: 0 <= k < |out| ==> out[k].0 in fp && out[k].1 == ActionOf(out[k].0, order, deps, prior, fp))
            && (forall s :: s in fp ==> exists k :: 0 <= k < |out| && out[k].0 == s)
            && InOrder(out, deps)
    ensures forall s :: s in fp ==>
              ActionOf(s, order, deps, prior, fp) ==
              if Base(s, prior, fp) == Skip
                 && exists d :: d in deps(s) && d in fp && ActionOf(d, order, deps, prior, fp).Run?
              then Run(UpstreamRerun) else Base(s, prior, fp)
  {
    PlanEntries(order, deps, prior, fp);
    PlanFollowsOrder(order, deps, prior, fp);
    var out, running := PlanOf(order, deps, prior, fp), Running(order, deps, prior, fp);
    forall k | 0 <= k < |out|
      ensures out[k].0 in fp && out[k].1 == ActionOf(out[k].0, order, deps, prior, fp)
    {
      var (s, a) := out[k];
      assert (s, a) in out;
    }
    forall s | s in fp ensures exists k :: 0 <= k < |out| && out[k].0 == s {
      assert (s, ActionOf(s, order, deps, prior, fp)) in out;
    }
    forall s | s in fp
      ensures deps(s) * running != {} <==>
              exists d :: d in deps(s) && d in fp && ActionOf(d, order, deps, prior, fp).Run?
    {
      if d :| d in deps(s) && d in fp && ActionOf(d, order, deps, prior, fp).Run? {
        assert d in deps(s) * running;
      }
      if deps(s) * running != {} {
        var d :| d in deps(s) * running;
      }
    }
  }

  /** The running set is the least set closed under "a dependency runs". */
  lemma PlanIsLeastFixpoint<S(!new)>(order: seq<S>, deps: S -> set<S>, prior: map<S, Record>, fp: map<S, string>)
    requires Distinct(order) && Topological(order, deps)
    ensures Closed(Running(order, deps, prior, fp), order, deps, prior, fp)
    ensures forall x :: Closed(x, order, deps, prior, fp) ==> Running(order, deps, prior, fp) <= x
  {
    PlanEntries(order, deps, prior, fp);
    forall x | Closed(x, order, deps, prior, fp) ensures Running(order, deps, prior, fp) <= x {
      RunningBelow(order, |order|, deps, prior, fp, x);
      assert order[..|order|] == order;
    }
  }

  lemma {:induction false} RunningBelow<S(!new)>(order: seq<S>, n: nat, deps: S -> set<S>, prior: map<S, Record>,
                                                fp: map<S, string>, x: set<S>)
    requires n <= |order| && Closed(x, order, deps, prior, fp)
    ensures Running(order[..n], deps, prior, fp) <= x
  {
    if n > 0 {
      RunningBelow(order, n - 1, deps, prior, fp, x);
      assert order[..n][..n - 1] == order[..n - 1];
      var before := Running(order[..n - 1], deps, prior, fp);
      assert deps(order[n - 1]) * before <= deps(order[n - 1]) * x;
    }
  }

  ghost predicate SinglePassSuffices<S(!new)>(order: seq<S>, deps: S -> set<S>, prior: map<S, Record>,
                                              fp: map<S, string>)
  {
    Closed(Running(order, deps, prior, fp), order, deps, prior, fp)
  }

  /**
    One pass suffices for every state of the rows and the inputs exactly when the
    order is topological.
   */
  lemma SinglePassSufficesIffTopological<S(!new)>(order: seq<S>, deps: S -> set<S>)
    requires Distinct(order)
    ensures Topological(order, deps) <==>
            forall prior, fp :: SinglePassSuffices(order, deps, prior, fp)
  {
    if Topological(order, deps) {
      forall prior, fp ensures SinglePassSuffices(order, deps, prior, fp) {
        PlanIsLeastFixpoint(order, deps, prior, fp);
      }
    } else {
      var i, j :| 0 <= i < j < |order| && order[j] in deps(order[i]);
      var fp := map s | s in order :: "";
      var prior := map s | s in order && s != order[j] :: Record(Done, "");
      OnlyLaterStagesRun(order, |order|, deps, prior, fp, j);
      assert order[..|order|] == order;
      var running := Running(order, deps, prior, fp);
      assert Base(order[j], prior, fp).Run?;
      if order[j] in running {
        assert order[j] in deps(order[i]) * running;
        assert order[i] !in running;
      }
      assert !SinglePassSuffices(order, deps, prior, fp);
    }
  }

  /** When only stage `j` must run by itself, no stage before it does. */
  lemma {:induction false} OnlyLaterStagesRun<S(!new)>(order: seq<S>, n: nat, deps: S -> set<S>, prior: map<S, Record>,
                                                       fp: map<S, string>, j: nat)
    requires Distinct(order) && j < |order| && n <= |order|
    requires forall s :: s in order ==> s in fp && (s == order[j] || Base(s, prior, fp) == Skip)
    ensures n <= j ==> Running(order[..n], deps, prior, fp) == {}
    ensures forall i :: 0 <= i < j ==> order[i] !in Running(order[..n], deps, prior, fp)
  {
    if n > 0 {
      OnlyLaterStagesRun(order, n - 1, deps, prior, fp, j);
      assert order[..n][..n - 1] == order[..n - 1];
      assert order[n - 1] in order;
    }
  }
}
