/**
  Which stages a run executes: exactly those planned to run that it reaches before it
  fails or crashes.
 */
module Execution {
  import opened Wrappers
  import opened Planner
  import opened Pipeline
  import opened CrashSafety

  lemma {:induction false} TraceAppend(a: seq<(Stage, Action)>, b: seq<(Stage, Action)>, fp: map<Stage, string>,
                                       succeeds: Stage -> bool)
    requires NoFailure(a, succeeds)
    ensures Trace(a + b, fp, succeeds) == Trace(a, fp, succeeds) + Trace(b, fp, succeeds)
  {
    hide Block;
    if a == [] {
      assert a + b == b;
    } else {
      assert forall p :: p in a[1..] ==> p in a;
      assert a[0] in a && (a + b)[0] == a[0] && (a + b)[1..] == a[1..] + b;
      TraceAppend(a[1..], b, fp, succeeds);
      var s := a[0].0;
      if a[0].1.Run? && s in fp {
        var block, x, y := Block(s, fp[s], true), Trace(a[1..], fp, succeeds), Trace(b, fp, succeeds);
        assert Trace(a + b, fp, succeeds) == block + (x + y) == block + x + y;
      }
    }
  }

  // ---- the shape of a run that stops

  /** A job's steps are whole blocks of its first `m` stages and a partial block of the next. */
  ghost predicate StopsAt(job: Job, m: nat, part: seq<Step>) {
    && m <= |job.actions| && NoFailure(job.actions[..m], job.succeeds)
    && job.Steps() == Trace(job.actions[..m], job.fp, job.succeeds) + part
    && (part != [] ==>
          && m < |job.actions| && job.actions[m].1.Run? && job.actions[m].0 in job.fp
          && PartialBlock(job.actions[m].0, job.fp[job.actions[m].0], job.succeeds(job.actions[m].0), part))
  }

  ghost predicate PartialBlock(s: Stage, f: string, ok: bool, part: seq<Step>) {
    && |part| <= |Block(s, f, ok)| && part == Block(s, f, ok)[..|part|]
    && (ok ==> |part| < |Block(s, f, ok)|)
  }

  lemma EveryJobStopsSomewhere(job: Job, k: nat, done: seq<Step>) returns (m: nat, part: seq<Step>)
    requires job.Valid() && Through(job, k, done) && done == Trace(job.actions[..k], job.fp, job.succeeds)
    ensures StopsAt(job, m, part)
    decreases |job.actions| - k
  {
    hide Block;
    if k == |job.actions| {
      m, part := k, [];
      assert job.actions[k..] == [];
      assert job.Steps() == done + [];
    } else {
      var s := job.actions[k].0;
      assert job.actions[..k + 1] == job.actions[..k] + [job.actions[k]];
      TraceAppend(job.actions[..k], [job.actions[k]], job.fp, job.succeeds);
      if job.actions[k].1.Skip? {
        ThroughSkipped(job, k, done);
        assert Trace([job.actions[k]], job.fp, job.succeeds) == [];
        m, part := EveryJobStopsSomewhere(job, k + 1, done);
      } else {
        ThroughRun(job, k, done);
        var block := Block(s, job.fp[s], job.succeeds(s));
        if job.succeeds(s) && |done| + |block| <= job.crashAfter {
          assert Trace([job.actions[k]], job.fp, job.succeeds) == block + [] == block;
          m, part := EveryJobStopsSomewhere(job, k + 1, done + block);
        } else {
          m, part := k, Cut(block, job.crashAfter - |done|);
        }
      }
    }
  }

  lemma JobStops(job: Job)
    requires job.Valid()
    ensures exists m: nat, part :: StopsAt(job, m, part)
  {
    assert job.actions[..0] == [] && job.actions[0..] == job.actions;
    var m, part := EveryJobStopsSomewhere(job, 0, []);
  }

  // ---- what a run executes

  function RunCount(actions: seq<(Stage, Action)>): nat {
    if actions == [] then 0
    else RunCount(actions[..|actions| - 1]) + if actions[|actions| - 1].1.Run? then 1 else 0
  }

  /** Every stage planned before the `k`th succeeds, and the crash comes after its third step, its beginning. */
  ghost predicate Reaches(job: Job, k: int) {
    && 0 <= k < |job.actions| && NoFailure(job.actions[..k], job.succeeds)
    && 6 * RunCount(job.actions[..k]) + 3 <= job.crashAfter
  }

  /** The run is planned to execute the stage and reaches it. */
  ghost predicate Executes(job: Job, s: Stage) {
    exists k :: Reaches(job, k) && job.actions[k].0 == s && job.actions[k].1.Run?
  }

  lemma {:induction false} TraceLengthIs(actions: seq<(Stage, Action)>, fp: map<Stage, string>, succeeds: Stage -> bool)
    requires NoFailure(actions, succeeds) && forall k :: 0 <= k < |actions| ==> actions[k].0 in fp
    ensures |Trace(actions, fp, succeeds)| == 6 * RunCount(actions)
  {
    if actions != [] {
      var init, last := actions[..|actions| - 1], actions[|actions| - 1];
      assert actions == init + [last] && last in actions;
      TraceLengthIs(init, fp, succeeds);
      TraceAppend(init, [last], fp, succeeds);
      assert [last][1..] == [];
    }
  }

  /** The planned stage begins at the step after the two that mark it. */
  lemma ReachedStageBegins(job: Job, k: nat)
    requires job.Valid() && Reaches(job, k) && job.actions[k].1.Run?
    ensures BeganIn(job.Steps(), job.actions[k].0)
  {
    var s, head, rest := job.actions[k].0, job.actions[..k], job.actions[k..];
    assert job.actions == head + rest;
    TraceAppend(head, rest, job.fp, job.succeeds);
    TraceLengthIs(head, job.fp, job.succeeds);
    var block := Block(s, job.fp[s], job.succeeds(s));
    assert rest[0] == job.actions[k] && block <= Trace(rest, job.fp, job.succeeds);
    assert Begins(block[2], s);
    hide Block, RunCount, NoFailure;
    var at := |Trace(head, job.fp, job.succeeds)| + 2;
    assert job.Steps()[at] == Trace(rest, job.fp, job.succeeds)[2] == block[2];
  }

  lemma PartialBlockBegins(s: Stage, f: string, ok: bool, part: seq<Step>, t: Stage)
    requires |part| <= |Block(s, f, ok)| && part == Block(s, f, ok)[..|part|]
    ensures AllOf(part, s)
    ensures BeganIn(part, t) <==> s == t && |part| >= 3
  {
    if |part| >= 3 {
      assert Begins(part[2], s);
    }
  }

  /** Which of the first stages begin in a run that stops at stage `m`. */
  lemma StoppedJobBegins(job: Job, m: nat, part: seq<Step>, s: Stage)
    requires job.Valid() && StopsAt(job, m, part) && BeganIn(job.Steps(), s)
    ensures Executes(job, s)
  {
    var head := job.actions[..m];
    var steps := Trace(head, job.fp, job.succeeds);
    TraceLengthIs(head, job.fp, job.succeeds);
    assert |job.Steps()| <= job.crashAfter;
    BeganInAppend(steps, part, s);
    hide Block, Trace;
    if BeganIn(steps, s) {
      TraceBegins(head, job.fp, job.succeeds, s);
      var k :| 0 <= k < |head| && head[k].0 == s && head[k].1.Run?;
      assert head[..k] == job.actions[..k];
      assert forall p :: p in head[..k] ==> p in head;
      RunCountBefore(head, k);
      assert Reaches(job, k);
    } else {
      var t := job.actions[m].0;
      PartialBlockBegins(t, job.fp[t], job.succeeds(t), part, s);
      assert Reaches(job, m);
    }
  }

  /** A stage that runs is counted after those before it. */
  lemma {:induction false} RunCountBefore(actions: seq<(Stage, Action)>, k: nat)
    requires k < |actions| && actions[k].1.Run?
    ensures RunCount(actions[..k]) + 1 <= RunCount(actions)
    decreases |actions|
  {
    var init := actions[..|actions| - 1];
    if k < |init| {
      RunCountBefore(init, k);
      assert init[..k] == actions[..k];
    }
  }

  /** A run begins exactly the stages it is planned to run and reaches. */
  lemma BeginsIffExecutes(job: Job, s: Stage)
    requires job.Valid()
    ensures BeganIn(job.Steps(), s) <==> Executes(job, s)
  {
    hide BeganIn, StopsAt, NoFailure, RunCount;
    if BeganIn(job.Steps(), s) {
      JobStops(job);
      var m: nat, part :| StopsAt(job, m, part);
      StoppedJobBegins(job, m, part, s);
    }
    if k :| Reaches(job, k) && job.actions[k].0 == s && job.actions[k].1.Run? {
      ReachedStageBegins(job, k);
    }
  }

  lemma CompleteSteps(job: Job)
    requires job.Completes()
    ensures job.Steps() == Trace(job.actions, job.fp, job.succeeds)
  {}

  /** A run that completes executes everything it is planned to run. */
  lemma CompleteRunExecutes(w: Case, run: RunInput, s: Stage)
    requires run.JobOn(w.rows).Completes()
    ensures Executes(run.JobOn(w.rows), s) <==> s in run.Fp() && run.ActionOn(w.rows, s).Run?
  {
    RunPlan(run, w.rows);
    var job := run.JobOn(w.rows);
    hide PlanOf, Running, Trace, BeganIn, Executes, InOrder;
    BeginsIffExecutes(job, s);
    CompleteSteps(job);
    TraceBegins(job.actions, job.fp, job.succeeds, s);
  }

  /** A run never executes a stage that it does not cover. */
  lemma UncoveredStageIsNotExecuted(w: Case, run: RunInput, s: Stage)
    requires s !in run.Fp()
    ensures !Executes(run.JobOn(w.rows), s)
  {
    RunPlan(run, w.rows);
    hide PlanOf, Running, RunCount, NoFailure;
  }

  /**
    A stage left without a Done row is planned by the next run that covers it, and that run
    begins it exactly when it gets that far, wherever it stops afterwards.
   */
  lemma UnfinishedStageIsRetried(w: Case, run: RunInput, s: Stage)
    requires s in run.Fp() && (s !in w.rows || w.rows[s].status == Incomplete)
    ensures run.ActionOn(w.rows, s).Run?
    ensures var job := run.JobOn(w.rows);
            BeganIn(job.Steps(), s) <==> exists k :: Reaches(job, k) && job.actions[k].0 == s
  {
    RunPlan(run, w.rows);
    var job := run.JobOn(w.rows);
    hide PlanOf, Running, Trace, BeganIn, InOrder, RunCount, NoFailure;
    BeginsIffExecutes(job, s);
  }

  // ---- histories

  /** The `k`th run of a history, as planned. */
  function JobOf(w: Case, runs: seq<RunInput>, k: nat): Job
    requires k < |runs|
  {
    runs[k].JobOn(AfterAll(w, runs[..k]).rows)
  }

  /** The runs of the history that execute the stage. */
  ghost function Executions(w: Case, runs: seq<RunInput>, s: Stage): set<nat> {
    set k: nat | k < |runs| && Executes(JobOf(w, runs, k), s)
  }

  lemma {:induction false} ExecutionsSnoc(w: Case, runs: seq<RunInput>, n: nat, s: Stage)
    requires |runs| == n + 1
    ensures Executions(w, runs, s) ==
            Executions(w, runs[..n], s) + if Executes(JobOf(w, runs, n), s) then {n} else {}
    ensures forall k :: k in Executions(w, runs[..n], s) ==> k < n
  {
    hide Executes, AfterAll;
    forall k: nat | k < n ensures runs[..n][..k] == runs[..k] {}
    assert forall k: nat :: k < n ==> runs[..n][k] == runs[k];
  }

  /** A stage has begun exactly if it had before or some run executed it. */
  lemma {:induction false} HistoryBegins(w: Case, runs: seq<RunInput>, s: Stage)
    ensures BeganIn(AfterAll(w, runs).log, s) <==> BeganIn(w.log, s) || Executions(w, runs, s) != {}
  {
    hide BeganIn, Executes, Executions;
    if runs == [] {
      NothingExecuted(w, s);
    } else {
      var n := |runs| - 1;
      HistoryBegins(w, runs[..n], s);
      ExecutionsSnoc(w, runs, n, s);
      RunPlan(runs[n], AfterAll(w, runs[..n]).rows);
      BeginsIffExecutes(JobOf(w, runs, n), s);
      hide PlanOf, Running;
      BeganInAppend(AfterAll(w, runs[..n]).log, JobOf(w, runs, n).Steps(), s);
    }
  }

  lemma NothingExecuted(w: Case, s: Stage)
    ensures Executions(w, [], s) == {}
  {}
}
