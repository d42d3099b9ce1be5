/**
  Freshness: whether every stage last executed on the latest output of the stages it
  depends on, after any run, any history of runs, and histories that end well.
 */
module Freshness {
  import opened Wrappers
  import opened Planner
  import opened Pipeline
  import opened CrashSafety
  import opened Execution

  ghost predicate NoBegin(steps: seq<Step>, d: Stage) {
    forall j :: 0 <= j < |steps| ==> !Begins(steps[j], d)
  }

  /** `s` began at `i`, and `d` has not begun since. */
  ghost predicate BeganLastAt(log: seq<Step>, s: Stage, d: Stage, i: int) {
    0 <= i < |log| && Begins(log[i], s) && forall j :: i < j < |log| ==> !Begins(log[j], d)
  }

  /** The last execution of `s` was on the latest output of `d`. */
  ghost predicate UpToDate(log: seq<Step>, s: Stage, d: Stage) {
    exists i :: BeganLastAt(log, s, d, i)
  }

  lemma UpToDateGrows(log: seq<Step>, steps: seq<Step>, s: Stage, d: Stage)
    requires UpToDate(log, s, d) && NoBegin(steps, d)
    ensures UpToDate(log + steps, s, d)
  {
    var i :| BeganLastAt(log, s, d, i);
    assert BeganLastAt(log + steps, s, d, i);
  }

  lemma UpToDateInSuffix(log: seq<Step>, steps: seq<Step>, s: Stage, d: Stage)
    requires UpToDate(steps, s, d)
    ensures UpToDate(log + steps, s, d)
  {
    var i :| BeganLastAt(steps, s, d, i);
    assert BeganLastAt(log + steps, s, d, |log| + i);
  }

  /** If `s` does not begin in the new steps, it was up to date before, and `d` does not begin either. */
  lemma UpToDateShrinks(log: seq<Step>, steps: seq<Step>, s: Stage, d: Stage)
    requires UpToDate(log + steps, s, d) && NoBegin(steps, s)
    ensures UpToDate(log, s, d) && NoBegin(steps, d)
  {
    forall j | |log| <= j < |log + steps| ensures !Begins((log + steps)[j], s) {
      assert (log + steps)[j] == steps[j - |log|];
    }
    var i :| BeganLastAt(log + steps, s, d, i);
    assert forall j :: 0 <= j < |log| ==> (log + steps)[j] == log[j];
    assert BeganLastAt(log, s, d, i);
    forall j | 0 <= j < |steps| ensures !Begins(steps[j], d) {
      assert (log + steps)[|log| + j] == steps[j];
    }
  }

  /** A stage that runs sees the final output of the dependencies that run: they come before it. */
  lemma {:induction false} RunStageIsUpToDate(actions: seq<(Stage, Action)>, fp: map<Stage, string>,
                                              succeeds: Stage -> bool,
                                              k: nat, d: Stage)
    requires NoFailure(actions, succeeds) && InOrder(actions, Deps)
    requires forall i :: 0 <= i < |actions| ==> actions[i].0 in fp
    requires k < |actions| && actions[k].1.Run? && d in Deps(actions[k].0)
    ensures UpToDate(Trace(actions, fp, succeeds), actions[k].0, d)
  {
    hide Block, UpToDate;
    var t, rest := actions[0].0, actions[1..];
    assert actions[0] in actions && forall p :: p in rest ==> p in actions;
    if k == 0 {
      TraceBegins(rest, fp, succeeds, d);
      BlockBegins(t, fp[t], true, t);
      BlockBegins(t, fp[t], true, d);
      BlockThenRest(Block(t, fp[t], true), Trace(rest, fp, succeeds), t, d);
    } else {
      RunStageIsUpToDate(rest, fp, succeeds, k - 1, d);
      if actions[0].1.Run? {
        UpToDateInSuffix(Block(t, fp[t], true), Trace(rest, fp, succeeds), actions[k].0, d);
      }
    }
  }

  lemma BlockThenRest(block: seq<Step>, rest: seq<Step>, s: Stage, d: Stage)
    requires |block| >= 4 && Begins(block[2], s) && NoBegin(block, d) && NoBegin(rest, d)
    ensures UpToDate(block + rest, s, d)
  {
    assert BeganLastAt(block + rest, s, d, 2);
  }

  // ---- any run

  lemma BegunIsUpToDate(job: Job, m: nat, part: seq<Step>, s: Stage, d: Stage)
    requires job.Valid() && InOrder(job.actions, Deps) && StopsAt(job, m, part)
    requires BeganIn(job.Steps(), s) && d in Deps(s)
    ensures UpToDate(job.Steps(), s, d)
  {
    hide Block, Trace;
    var head := job.actions[..m];
    var steps := Trace(head, job.fp, job.succeeds);
    BeganInAppend(steps, part, s);
    DependenciesAreRoots(s, d);
    if part != [] {
      var t := job.actions[m].0;
      PartialBlockBegins(t, job.fp[t], job.succeeds(t), part, s);
      PartialBlockBegins(t, job.fp[t], job.succeeds(t), part, d);
    }
    if BeganIn(steps, s) {
      TraceBegins(head, job.fp, job.succeeds, s);
      var k :| 0 <= k < |head| && head[k].0 == s && head[k].1.Run?;
      assert job.actions[k] == head[k];
      RunStageIsUpToDate(head, job.fp, job.succeeds, k, d);
      UpToDateGrows(steps, part, s, d);
    } else {
      var i :| 0 <= i < |part| && Begins(part[i], s);
      assert BeganLastAt(part, s, d, i);
      UpToDateInSuffix(steps, part, s, d);
    }
  }

  /**
    The law of one run, whatever its flags and inputs, wherever it stops and whether or not it covers
    the stages: a stage ends up to date with a dependency exactly when the run executed the stage, or
    it was up to date before and the run did not execute the dependency.
   */
  lemma RunFreshIff(w: Case, run: RunInput, s: Stage, d: Stage)
    requires d in Deps(s)
    ensures UpToDate(After(w, run).log, s, d) <==>
            var job := run.JobOn(w.rows);
            Executes(job, s) || (UpToDate(w.log, s, d) && !Executes(job, d))
  {
    RunPlan(run, w.rows);
    var job := run.JobOn(w.rows);
    hide PlanOf, Running, Trace, Executes, StopsAt, InOrder, Deps;
    BeginsIffExecutes(job, s);
    BeginsIffExecutes(job, d);
    if BeganIn(job.Steps(), s) {
      JobStops(job);
      var m: nat, part :| StopsAt(job, m, part);
      BegunIsUpToDate(job, m, part, s, d);
      UpToDateInSuffix(w.log, job.Steps(), s, d);
    } else {
      assert NoBegin(job.Steps(), s);
      if UpToDate(w.log + job.Steps(), s, d) {
        UpToDateShrinks(w.log, job.Steps(), s, d);
      }
      if UpToDate(w.log, s, d) && !BeganIn(job.Steps(), d) {
        UpToDateGrows(w.log, job.Steps(), s, d);
      }
    }
  }

  // ---- any history

  /** Some run in `xs` comes at or after every run in `ys`. */
  ghost predicate EndsLast(xs: set<nat>, ys: set<nat>) {
    exists k :: k in xs && forall j :: j in ys ==> j <= k
  }

  lemma EndsLastSnoc(xs: set<nat>, ys: set<nat>, n: nat, x: bool, y: bool)
    requires (forall k :: k in xs ==> k < n) && (forall k :: k in ys ==> k < n)
    ensures EndsLast(xs + (if x then {n} else {}), ys + (if y then {n} else {})) <==> x || (EndsLast(xs, ys) && !y)
  {
    var all, others := xs + (if x then {n} else {}), ys + (if y then {n} else {});
    if x {
      assert n in all && forall j :: j in others ==> j <= n;
    } else if EndsLast(xs, ys) && !y {
      var k :| k in xs && forall j :: j in ys ==> j <= k;
      assert k in all;
    } else if y {
      assert n in others;
    }
  }

  /** The law of any history: crashed, failed, forced or restricted runs in any order. */
  lemma {:induction false} HistoryFreshIff(w: Case, runs: seq<RunInput>, s: Stage, d: Stage)
    requires d in Deps(s)
    ensures var xs, ys := Executions(w, runs, s), Executions(w, runs, d);
            UpToDate(AfterAll(w, runs).log, s, d) <==> EndsLast(xs, ys) || (UpToDate(w.log, s, d) && ys == {})
  {
    hide UpToDate, Executes, Executions, Deps, EndsLast;
    if runs == [] {
      NothingExecuted(w, s);
      NothingExecuted(w, d);
      NothingEndsLast();
    } else {
      var n := |runs| - 1;
      HistoryFreshIff(w, runs[..n], s, d);
      RunFreshIff(AfterAll(w, runs[..n]), runs[n], s, d);
      ExecutionsSnoc(w, runs, n, s);
      ExecutionsSnoc(w, runs, n, d);
      EndsLastSnoc(Executions(w, runs[..n], s), Executions(w, runs[..n], d), n,
                   Executes(JobOf(w, runs, n), s), Executes(JobOf(w, runs, n), d));
    }
  }

  lemma NothingEndsLast()
    ensures !EndsLast({}, {})
  {}

  lemma {:induction false} Latest(xs: set<nat>) returns (m: nat)
    requires xs != {}
    ensures m in xs && forall k :: k in xs ==> k <= m
    decreases |xs|
  {
    var x :| x in xs;
    var rest := xs - {x};
    assert forall k :: k in xs ==> k == x || k in rest;
    if rest == {} {
      m := x;
    } else {
      var r := Latest(rest);
      m := if r > x then r else x;
    }
  }

  /** Nothing makes the run execute `s` again: its row and those of the covered dependencies are Done and current. */
  predicate Contented(run: RunInput, rows: map<Stage, Record>, s: Stage) {
    && !run.flags.rerun
    && forall t | t in {s} + Deps(s) && t in run.Fp() :: t in rows && rows[t] == Record(Done, run.Fp()[t])
  }

  lemma SkipsIffContented(run: RunInput, rows: map<Stage, Record>, s: Stage)
    requires s in run.Fp()
    ensures run.ActionOn(rows, s) == Skip <==> Contented(run, rows, s)
  {
    PlanVerdict(run, rows, s);
    forall d | d in Deps(s) && d in run.Fp()
      ensures run.ActionOn(rows, d).Run? <==> Base(d, run.Prior(rows), run.Fp()).Run?
    {
      DependenciesAreRoots(s, d);
      PlanVerdict(run, rows, d);
    }
    hide PlanOf, Running;
    assert s in {s} + Deps(s);
  }

  /** Some run in `ys` comes after every run in `xs`. */
  ghost predicate MissedLast(xs: set<nat>, ys: set<nat>) {
    exists j :: j in ys && forall k :: k in xs ==> k < j
  }

  /**
    When a pipeline that has just completed is stale. After any history of runs and one complete run
    that covers `s`, the stage has missed the latest output of `d` exactly when that last run was content
    with the rows, and some run executed `d` after every run that executed `s`.
   */
  lemma {:induction false} StaleIff(runs: seq<RunInput>, last: RunInput, s: Stage, d: Stage)
    requires var mid := AfterAll(EMPTY_CASE, runs); last.JobOn(mid.rows).Completes()
    requires s in last.Fp() && d in Deps(s)
    ensures var mid := AfterAll(EMPTY_CASE, runs);
            !UpToDate(After(mid, last).log, s, d) <==>
            && Contented(last, mid.rows, s)
            && MissedLast(Executions(EMPTY_CASE, runs, s), Executions(EMPTY_CASE, runs, d))
  {
    hide Executes, Executions, MissedLast, EndsLast, UpToDate, After, AfterAll;
    var mid := AfterAll(EMPTY_CASE, runs);
    RunFreshIff(mid, last, s, d);
    CompleteRunExecutes(mid, last, s);
    CompleteRunExecutes(mid, last, d);
    HistoryFreshIff(EMPTY_CASE, runs, s, d);
    SkipsIffContented(last, mid.rows, s);
    NothingBegan(s, d);
    if Contented(last, mid.rows, s) {
      assert d in last.Fp() ==> last.ActionOn(mid.rows, d).Skip? by {
        DependenciesAreRoots(s, d);
        if d in last.Fp() {
          SkipsIffContented(last, mid.rows, d);
        }
      }
      assert s in {s} + Deps(s);
      StaleHistory(runs, s, d);
    }
  }

  lemma NothingBegan(s: Stage, d: Stage)
    ensures !UpToDate(EMPTY_CASE.log, s, d) && !BeganIn(EMPTY_CASE.log, s)
  {}

  /** With a Done row, missing the latest output means that `d` was executed after `s` last was. */
  lemma {:induction false} StaleHistory(runs: seq<RunInput>, s: Stage, d: Stage)
    requires var mid := AfterAll(EMPTY_CASE, runs); s in mid.rows && mid.rows[s].status == Done
    ensures var xs, ys := Executions(EMPTY_CASE, runs, s), Executions(EMPTY_CASE, runs, d);
            EndsLast(xs, ys) <==> !MissedLast(xs, ys)
  {
    DoneRowWasExecuted(runs, s);
    HistoryBegins(EMPTY_CASE, runs, s);
    NothingBegan(s, d);
    hide AfterAll, BeganIn, Executions;
    var last := Latest(Executions(EMPTY_CASE, runs, s));
  }

  // ---- complete runs

  lemma {:induction false} RowAfterTrace(rows: map<Stage, Record>, actions: seq<(Stage, Action)>,
                                         fp: map<Stage, string>,
                                         succeeds: Stage -> bool, s: Stage)
    requires NoFailure(actions, succeeds) && InOrder(actions, Deps)
    requires forall k :: 0 <= k < |actions| ==> actions[k].0 in fp
    ensures var r := Replay(rows, Trace(actions, fp, succeeds));
            if exists k :: 0 <= k < |actions| && actions[k].0 == s && actions[k].1.Run?
            then s in r && s in fp && r[s] == Record(Done, fp[s])
            else (s in r <==> s in rows) && (s in rows ==> r[s] == rows[s])
    decreases |actions|
  {
    hide Block, Replay;
    if actions == [] {
      ReplayNothing(rows);
    } else {
      var t, action, rest := actions[0].0, actions[0].1, actions[1..];
      assert actions[0] in actions && forall p :: p in rest ==> p in actions;
      assert forall k :: 0 <= k < |rest| ==> actions[k + 1] == rest[k];
      if action.Skip? {
        RowAfterTrace(rows, rest, fp, succeeds, s);
      } else {
        var block := Block(t, fp[t], true);
        ReplayAppend(rows, block, Trace(rest, fp, succeeds));
        RowAfterTrace(Replay(rows, block), rest, fp, succeeds, s);
        RowAfterBlock(rows, t, fp[t], s);
      }
    }
  }

  lemma ReplayNothing(rows: map<Stage, Record>)
    ensures Replay(rows, []) == rows
  {}

  lemma RowAfterBlock(rows: map<Stage, Record>, t: Stage, f: string, s: Stage)
    ensures var r := Replay(rows, Block(t, f, true));
            if s == t then s in r && r[s] == Record(Done, f)
            else (s in r <==> s in rows) && (s in rows ==> r[s] == rows[s])
  {
    var block := Block(t, f, true);
    RowDuringBlock(rows, t, f, true, 6);
    assert block[..6] == block && AllOf(block, t);
    hide Block;
    if s != t {
      ReplayOther(rows, block, t, s);
    }
  }

  lemma CompleteJobRow(rows: map<Stage, Record>, job: Job, k: nat)
    requires job.Valid() && InOrder(job.actions, Deps) && job.Completes() && k < |job.actions|
    ensures var r, s := Replay(rows, job.Steps()), job.actions[k].0;
            if job.actions[k].1.Run? then s in r && r[s] == Record(Done, job.fp[s])
            else (s in r <==> s in rows) && (s in rows ==> r[s] == rows[s])
  {
    hide Trace, Replay, Deps;
    CompleteSteps(job);
    RowAfterTrace(rows, job.actions, job.fp, job.succeeds, job.actions[k].0);
  }

  /** A run that completes leaves every stage it covers Done under its current fingerprint. */
  lemma CompleteRunRow(w: Case, run: RunInput, s: Stage)
    requires run.JobOn(w.rows).Completes() && s in run.Fp()
    ensures s in After(w, run).rows && After(w, run).rows[s] == Record(Done, run.Fp()[s])
  {
    RunPlan(run, w.rows);
    PlanVerdict(run, w.rows, s);
    hide PlanOf, Running, Trace, Replay, InOrder, NoFailure, Deps;
    var job := run.JobOn(w.rows);
    var k :| 0 <= k < |job.actions| && job.actions[k].0 == s;
    CompleteJobRow(w.rows, job, k);
  }

  /**
    After a run that completes, a stage is up to date with a dependency exactly when the run
    executed the stage or it was up to date before.
   */
  lemma CompleteRunFreshIff(w: Case, run: RunInput, s: Stage, d: Stage)
    requires run.JobOn(w.rows).Completes() && s in run.Fp() && d in Deps(s)
    ensures UpToDate(After(w, run).log, s, d) <==> run.ActionOn(w.rows, s).Run? || UpToDate(w.log, s, d)
  {
    RunFreshIff(w, run, s, d);
    CompleteRunExecutes(w, run, s);
    CompleteRunExecutes(w, run, d);
    PlanVerdict(run, w.rows, s);
    hide PlanOf, Running, UpToDate, Executes, After;
  }

  /** Every run completes, and covers `s` whenever it covers `d`. */
  ghost predicate CompleteHistory(runs: seq<RunInput>, s: Stage, d: Stage) {
    forall k :: 0 <= k < |runs| ==>
      JobOf(EMPTY_CASE, runs, k).Completes() && (d in runs[k].Fp() ==> s in runs[k].Fp())
  }

  /**
    Over any history of complete runs that never covers the dependency without the stage, every run that
    covers the stage leaves it Done under its current fingerprint and executed on the latest output.
   */
  lemma {:induction false} CompleteHistoriesAreFresh(runs: seq<RunInput>, s: Stage, d: Stage)
    requires runs != [] && CompleteHistory(runs, s, d) && s in runs[|runs| - 1].Fp() && d in Deps(s)
    ensures var w := AfterAll(EMPTY_CASE, runs);
            && s in w.rows && w.rows[s] == Record(Done, runs[|runs| - 1].Fp()[s])
            && UpToDate(w.log, s, d)
  {
    var init, run := runs[..|runs| - 1], runs[|runs| - 1];
    NothingMissed(runs, s, d);
    hide Executions, MissedLast, UpToDate, After, PlanOf, Running, Trace, NoFailure, Deps;
    var w := AfterAll(EMPTY_CASE, init);
    assert JobOf(EMPTY_CASE, runs, |runs| - 1) == run.JobOn(w.rows);
    CompleteRunRow(w, run, s);
    StaleIff(init, run, s, d);
  }

  lemma {:induction false} NothingMissed(runs: seq<RunInput>, s: Stage, d: Stage)
    requires runs != [] && CompleteHistory(runs, s, d) && d in Deps(s)
    ensures var init := runs[..|runs| - 1];
            !MissedLast(Executions(EMPTY_CASE, init, s), Executions(EMPTY_CASE, init, d))
  {
    hide Executes, PlanOf, Running, Trace, NoFailure, Deps, AfterAll;
    var init := runs[..|runs| - 1];
    var xs, ys := Executions(EMPTY_CASE, init, s), Executions(EMPTY_CASE, init, d);
    forall j | j in ys ensures j in xs {
      assert init[..j] == runs[..j] && init[j] == runs[j];
      ExecutesDownstream(AfterAll(EMPTY_CASE, runs[..j]), runs[j], s, d);
    }
    hide Executions;
    assert !MissedLast(xs, ys);
  }

  /** A complete run that executes a dependency executes the stages it covers that depend on it. */
  lemma ExecutesDownstream(w: Case, run: RunInput, s: Stage, d: Stage)
    requires run.JobOn(w.rows).Completes() && Executes(run.JobOn(w.rows), d)
    requires d in Deps(s) && (d in run.Fp() ==> s in run.Fp())
    ensures Executes(run.JobOn(w.rows), s)
  {
    CompleteRunExecutes(w, run, s);
    CompleteRunExecutes(w, run, d);
    hide Executes;
    PlanVerdict(run, w.rows, s);
  }

  lemma {:induction false} NothingToTrace(actions: seq<(Stage, Action)>, fp: map<Stage, string>,
                                          succeeds: Stage -> bool)
    requires forall k :: 0 <= k < |actions| ==> actions[k].1.Skip?
    ensures Trace(actions, fp, succeeds) == [] && NoFailure(actions, succeeds)
  {
    if actions != [] {
      NothingToTrace(actions[1..], fp, succeeds);
    }
  }

  lemma SecondRunSkips(w: Case, first: RunInput, second: RunInput, s: Stage)
    requires first.JobOn(w.rows).Completes() && s in second.Fp()
    requires second.Fp() == first.Fp() && !second.flags.rerun
    ensures second.ActionOn(After(w, first).rows, s) == Skip
  {
    PlanVerdict(second, After(w, first).rows, s);
    CompleteRunRow(w, first, s);
    hide PlanOf, Running, Trace, Replay, After, Deps;
    forall d | d in Deps(s) && d in second.Fp() ensures second.ActionOn(After(w, first).rows, d) == Skip {
      PlanVerdict(second, After(w, first).rows, d);
      CompleteRunRow(w, first, d);
      DependenciesAreRoots(s, d);
    }
  }

  /** After a complete run, an unforced run with the same inputs skips every stage and changes nothing. */
  lemma SecondRunIsNoOp(w: Case, first: RunInput, second: RunInput)
    requires first.JobOn(w.rows).Completes()
    requires second.Fp() == first.Fp() && !second.flags.rerun
    ensures forall s :: s in second.Fp() ==> second.ActionOn(After(w, first).rows, s) == Skip
    ensures second.JobOn(After(w, first).rows).Completes() && After(After(w, first), second) == After(w, first)
  {
    var after := After(w, first);
    RunPlan(second, after.rows);
    hide PlanOf, Running, Trace, Replay, After;
    forall s | s in second.Fp() ensures second.ActionOn(after.rows, s) == Skip {
      SecondRunSkips(w, first, second, s);
    }
    var job := second.JobOn(after.rows);
    NothingToTrace(job.actions, job.fp, job.succeeds);
    assert job.Steps() == [];
    GrownByNothing(after);
    AfterIsGrown(after, second);
  }

  lemma AfterIsGrown(w: Case, run: RunInput)
    ensures After(w, run) == Grown(w, run.JobOn(w.rows).Steps())
  {}
}
