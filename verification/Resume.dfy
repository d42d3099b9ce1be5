/**
  The state in which a stopped run leaves each stage, and the pipelines that end with
  every row Done and a stage that has missed its latest input.
 */
module Resume {
  import opened Wrappers
  import opened Sequences
  import opened Planner
  import opened Pipeline
  import opened CrashSafety
  import opened Execution
  import opened Freshness

  ghost predicate Touched(steps: seq<Step>, s: Stage) {
    exists i :: 0 <= i < |steps| && steps[i].stage == s
  }

  ghost predicate Recorded(steps: seq<Step>, s: Stage, f: string) {
    Inserted(s, Record(Done, f)) in steps
  }

  // ---- the steps of one stage in a stopped run

  lemma BlockTouches(s: Stage, f: string, ok: bool, part: seq<Step>, t: Stage, g: string)
    requires |part| <= |Block(s, f, ok)| && part == Block(s, f, ok)[..|part|]
    ensures AllOf(part, s)
    ensures Recorded(part, t, g) <==> ok && |part| == 6 && t == s && g == f
  {
    var recorded := Inserted(t, Record(Done, g));
    if ok && |part| == 6 {
      assert part[5] == Inserted(s, Record(Done, f));
    }
  }

  lemma {:induction false} TraceTouches(actions: seq<(Stage, Action)>, fp: map<Stage, string>,
                                        succeeds: Stage -> bool, s: Stage)
    requires NoFailure(actions, succeeds) && forall k :: 0 <= k < |actions| ==> actions[k].0 in fp
    ensures var runs := exists k :: 0 <= k < |actions| && actions[k].0 == s && actions[k].1.Run?;
            && (Touched(Trace(actions, fp, succeeds), s) <==> runs)
            && (s in fp ==> (Recorded(Trace(actions, fp, succeeds), s, fp[s]) <==> runs))
  {
    if actions != [] {
      var t, rest := actions[0].0, actions[1..];
      assert actions[0] in actions && forall p :: p in rest ==> p in actions;
      assert forall k :: 0 <= k < |rest| ==> actions[k + 1] == rest[k];
      TraceTouches(rest, fp, succeeds, s);
      if actions[0].1.Run? {
        var block, tail := Block(t, fp[t], true), Trace(rest, fp, succeeds);
        assert block[..|block|] == block;
        BlockTouches(t, fp[t], true, block, s, if s in fp then fp[s] else "");
        assert block[0].stage == t;
        hide Block;
        assert forall k :: 0 <= k < |block| ==> (block + tail)[k] == block[k];
        assert forall k :: 0 <= k < |tail| ==> (block + tail)[|block| + k] == tail[k];
        assert Touched(block + tail, s) <==> s == t || Touched(tail, s);
      }
    }
  }

  lemma TouchedAppend(a: seq<Step>, b: seq<Step>, s: Stage, f: string)
    ensures Touched(a + b, s) <==> Touched(a, s) || Touched(b, s)
    ensures Recorded(a + b, s, f) <==> Recorded(a, s, f) || Recorded(b, s, f)
  {
    assert forall k :: 0 <= k < |a| ==> (a + b)[k] == a[k];
    assert forall k :: 0 <= k < |b| ==> (a + b)[|a| + k] == b[k];
  }

  /** The state of one stage after a run that stopped. */
  ghost predicate StageIs(rows: map<Stage, Record>, steps: seq<Step>, after: map<Stage, Record>, s: Stage, f: string,
                          runs: bool)
  {
    if !Touched(steps, s) then
      (s in after <==> s in rows) && (s in rows ==> after[s] == rows[s])
    else
      runs && if Recorded(steps, s, f) then
                && s in after && after[s] == Record(Done, f)
                && BeganIn(steps, s) && forall d :: d in Deps(s) ==> UpToDate(steps, s, d)
              else s in after ==> after[s].status == Incomplete
  }

  lemma StageInWholeBlocks(rows: map<Stage, Record>, job: Job, m: nat, part: seq<Step>, k: nat)
    requires job.Valid() && InOrder(job.actions, Deps) && StopsAt(job, m, part) && k < m
    ensures var s := job.actions[k].0;
            StageIs(rows, job.Steps(), Replay(rows, job.Steps()), s, job.fp[s], job.actions[k].1.Run?)
  {
    hide Replay, Trace, Block;
    var s, head := job.actions[k].0, job.(actions := job.actions[..m]);
    var steps := Trace(head.actions, job.fp, job.succeeds);
    assert head.actions[k] == job.actions[k];
    assert forall j :: 0 <= j < m && head.actions[j].0 == s ==> j == k;
    TraceTouches(head.actions, job.fp, job.succeeds, s);
    TraceBegins(head.actions, job.fp, job.succeeds, s);
    RowAfterTrace(rows, head.actions, job.fp, job.succeeds, s);
    ReplayAppend(rows, steps, part);
    TouchedAppend(steps, part, s, job.fp[s]);
    if part != [] {
      var t := job.actions[m].0;
      BlockTouches(t, job.fp[t], job.succeeds(t), part, s, job.fp[s]);
      OnlyTouches(part, t, s);
      ReplayOther(Replay(rows, steps), part, t, s);
    } else {
      ReplayNothing(Replay(rows, steps));
    }
    if job.actions[k].1.Run? {
      StillUpToDate(head, k, part);
      BeganInAppend(steps, part, s);
    }
  }

  lemma OnlyTouches(part: seq<Step>, t: Stage, s: Stage)
    requires AllOf(part, t) && s != t
    ensures !Touched(part, s) && NoBegin(part, s)
  {}

  /** Steps that begin no dependency of `s` leave it up to date. */
  lemma StillUpToDate(head: Job, k: nat, part: seq<Step>)
    requires head.Valid() && InOrder(head.actions, Deps) && NoFailure(head.actions, head.succeeds)
    requires k < |head.actions| && head.actions[k].1.Run?
    requires forall d :: d in Deps(head.actions[k].0) ==> NoBegin(part, d)
    ensures forall d :: d in Deps(head.actions[k].0) ==>
              UpToDate(Trace(head.actions, head.fp, head.succeeds) + part, head.actions[k].0, d)
  {
    forall d | d in Deps(head.actions[k].0)
      ensures UpToDate(Trace(head.actions, head.fp, head.succeeds) + part, head.actions[k].0, d)
    {
      RunStageIsUpToDate(head.actions, head.fp, head.succeeds, k, d);
      UpToDateGrows(Trace(head.actions, head.fp, head.succeeds), part, head.actions[k].0, d);
    }
  }

  lemma StageBeyondStop(rows: map<Stage, Record>, job: Job, m: nat, part: seq<Step>, k: nat)
    requires job.Valid() && InOrder(job.actions, Deps) && StopsAt(job, m, part) && m <= k < |job.actions|
    ensures var s := job.actions[k].0;
            StageIs(rows, job.Steps(), Replay(rows, job.Steps()), s, job.fp[s], job.actions[k].1.Run?)
  {
    var s, head := job.actions[k].0, job.actions[..m];
    var steps := Trace(head, job.fp, job.succeeds);
    TraceTouches(head, job.fp, job.succeeds, s);
    RowAfterTrace(rows, head, job.fp, job.succeeds, s);
    ReplayAppend(rows, steps, part);
    TouchedAppend(steps, part, s, job.fp[s]);
    if part != [] {
      var t := job.actions[m].0;
      BlockTouches(t, job.fp[t], job.succeeds(t), part, s, job.fp[s]);
      if k == m {
        assert part[0].stage == s;
        RowDuringBlock(Replay(rows, steps), s, job.fp[s], job.succeeds(s), |part|);
      } else {
        OnlyTouches(part, t, s);
        ReplayOther(Replay(rows, steps), part, t, s);
      }
    }
  }

  lemma StageAfterStop(w: Case, run: RunInput, s: Stage)
    requires s in run.Fp()
    ensures var steps := run.JobOn(w.rows).Steps();
            StageIs(w.rows, steps, After(w, run).rows, s, run.Fp()[s], run.ActionOn(w.rows, s).Run?)
  {
    RunPlan(run, w.rows);
    hide PlanOf, Running, Trace, StageIs, Replay, StopsAt, InOrder;
    var job := run.JobOn(w.rows);
    var k :| 0 <= k < |job.actions| && job.actions[k].0 == s;
    JobStops(job);
    var m: nat, part :| StopsAt(job, m, part);
    if k < m {
      StageInWholeBlocks(w.rows, job, m, part, k);
    } else {
      StageBeyondStop(w.rows, job, m, part, k);
    }
  }

  /** A stage the run does not cover is not touched. */
  lemma OtherStagesUntouched(w: Case, run: RunInput, s: Stage)
    requires s !in run.Fp()
    ensures !Touched(run.JobOn(w.rows).Steps(), s)
  {
    RunPlan(run, w.rows);
    hide PlanOf, Running, Trace, InOrder;
    var job := run.JobOn(w.rows);
    JobStops(job);
    var m: nat, part :| StopsAt(job, m, part);
    TraceTouches(job.actions[..m], job.fp, job.succeeds, s);
    TouchedAppend(Trace(job.actions[..m], job.fp, job.succeeds), part, s, "");
    if part != [] {
      var t := job.actions[m].0;
      BlockTouches(t, job.fp[t], job.succeeds(t), part, s, "");
      OnlyTouches(part, t, s);
    }
  }

  /** The row of a stage the run does not cover stays as it is. */
  lemma UncoveredRow(w: Case, run: RunInput, s: Stage)
    requires s !in run.Fp()
    ensures s in After(w, run).rows <==> s in w.rows
    ensures s in w.rows ==> After(w, run).rows[s] == w.rows[s]
  {
    OtherStagesUntouched(w, run, s);
    hide PlanOf, Running, Trace;
    UntouchedRow(w.rows, run.JobOn(w.rows).Steps(), s);
  }

  lemma {:induction false} UntouchedRow(rows: map<Stage, Record>, steps: seq<Step>, s: Stage)
    requires !Touched(steps, s)
    ensures s in Replay(rows, steps) <==> s in rows
    ensures s in rows ==> Replay(rows, steps)[s] == rows[s]
  {
    if steps != [] {
      assert steps[|steps| - 1].stage != s;
      UntouchedRow(rows, steps[..|steps| - 1], s);
    }
  }

  // ---- the resumed run

  /**
    Any run followed by one that completes: a stage ends up to date with a dependency exactly when the
    second run is not content with its rows, the first executed it, or it was up to date before and the
    first run did not execute the dependency.
   */
  lemma ResumeFreshIff(w: Case, aborted: RunInput, resumed: RunInput, s: Stage, d: Stage)
    requires resumed.JobOn(After(w, aborted).rows).Completes() && s in resumed.Fp() && d in Deps(s)
    ensures UpToDate(After(After(w, aborted), resumed).log, s, d) <==>
            || !Contented(resumed, After(w, aborted).rows, s)
            || Executes(aborted.JobOn(w.rows), s)
            || (UpToDate(w.log, s, d) && !Executes(aborted.JobOn(w.rows), d))
  {
    RunFreshIff(w, aborted, s, d);
    CompleteRunFreshIff(After(w, aborted), resumed, s, d);
    SkipsIffContented(resumed, After(w, aborted).rows, s);
    hide PlanOf, Running, UpToDate, Executes, After, Contented;
  }

  /** The resumption of an aborted run: the same inputs, nothing forced, and no further stop. */
  ghost predicate Resumes(w: Case, aborted: RunInput, resumed: RunInput) {
    && resumed.Fp() == aborted.Fp() && !resumed.flags.rerun
    && resumed.JobOn(After(w, aborted).rows).Completes()
  }

  /** The pipeline reports `s` as Done under its current fingerprint, yet `s` has missed the latest output of `d`. */
  ghost predicate DoneButStale(w: Case, last: RunInput, s: Stage, d: Stage) {
    s in w.rows && s in last.Fp() && w.rows[s] == Record(Done, last.Fp()[s]) && !UpToDate(w.log, s, d)
  }

  /**
    An aborted run that recorded every covered dependency of a Done stage and never touched the stage:
    its resumption leaves the stage behind.
   */
  lemma UntouchedIsLeftBehind(w: Case, aborted: RunInput, resumed: RunInput, s: Stage, d: Stage)
    requires Resumes(w, aborted, resumed) && s in aborted.Fp() && d in Deps(s) && d in aborted.Fp()
    requires s in w.rows && w.rows[s] == Record(Done, aborted.Fp()[s])
    requires !Touched(aborted.JobOn(w.rows).Steps(), s)
    requires forall e :: e in Deps(s) && e in aborted.Fp() ==>
               Recorded(aborted.JobOn(w.rows).Steps(), e, aborted.Fp()[e])
    ensures DoneButStale(After(After(w, aborted), resumed), resumed, s, d)
  {
    var job := aborted.JobOn(w.rows);
    UntouchedIsContented(w, aborted, resumed, s);
    RunPlan(aborted, w.rows);
    BeginsIffExecutes(job, s);
    BeginsIffExecutes(job, d);
    RecordedBegins(w, aborted, d);
    hide PlanOf, Running, Trace, Replay, After, UpToDate, Executes, Deps, Contented;
    CompleteRunRow(After(w, aborted), resumed, s);
    ResumeFreshIff(w, aborted, resumed, s, d);
  }

  lemma UntouchedIsContented(w: Case, aborted: RunInput, resumed: RunInput, s: Stage)
    requires Resumes(w, aborted, resumed) && s in aborted.Fp()
    requires s in w.rows && w.rows[s] == Record(Done, aborted.Fp()[s])
    requires !Touched(aborted.JobOn(w.rows).Steps(), s)
    requires forall e :: e in Deps(s) && e in aborted.Fp() ==>
               Recorded(aborted.JobOn(w.rows).Steps(), e, aborted.Fp()[e])
    ensures Contented(resumed, After(w, aborted).rows, s)
  {
    StageAfterStop(w, aborted, s);
    hide PlanOf, Running, Trace, Replay, After, UpToDate, Deps;
    forall e | e in Deps(s) && e in aborted.Fp()
      ensures e in After(w, aborted).rows && After(w, aborted).rows[e] == Record(Done, aborted.Fp()[e])
    {
      RecordedBegins(w, aborted, e);
    }
  }

  /** A stage that a run recorded Done began in it, and has that row. */
  lemma RecordedBegins(w: Case, run: RunInput, d: Stage)
    requires d in run.Fp() && Recorded(run.JobOn(w.rows).Steps(), d, run.Fp()[d])
    ensures BeganIn(run.JobOn(w.rows).Steps(), d)
    ensures d in After(w, run).rows && After(w, run).rows[d] == Record(Done, run.Fp()[d])
  {
    StageAfterStop(w, run, d);
    hide PlanOf, Running, Trace, Replay, After, UpToDate, BeganIn;
    assert Touched(run.JobOn(w.rows).Steps(), d);
  }

  // ---- pipelines that end stale

  predicate CoversDiskStages(run: RunInput) { run.Fp().Keys == {Ingest, Correlate, Scan} }

  /** Once the ingest runs, by itself or forced, so do correlation and scan after it. */
  lemma DiskPlan(prior: map<Stage, Record>, fp: map<Stage, string>)
    requires fp.Keys == {Ingest, Correlate, Scan} && Base(Ingest, prior, fp).Run?
    ensures var plan := PlanOf(ORDER, Deps, prior, fp);
            && |plan| == 3 && (plan[0].0, plan[1].0, plan[2].0) == (Ingest, Correlate, Scan)
            && plan[0].1.Run? && plan[1].1.Run? && plan[2].1.Run?
  {
    var o1, o2, o3 := [Ingest], [Ingest, Memory], [Ingest, Memory, Correlate];
    assert ORDER[..3] == o3 && o3[..2] == o2 && o2[..1] == o1 && o1[..0] == [];
    var ingest := [(Ingest, Base(Ingest, prior, fp))];
    assert Running(o1, Deps, prior, fp) == {Ingest} && PlanOf(o1, Deps, prior, fp) == ingest;
    assert Running(o2, Deps, prior, fp) == {Ingest} && PlanOf(o2, Deps, prior, fp) == ingest;
    assert Ingest in Deps(Correlate) * {Ingest} && Ingest in Deps(Scan) * {Ingest, Correlate};
    assert Running(o3, Deps, prior, fp) == {Ingest, Correlate};
    assert PlanOf(o3, Deps, prior, fp) == ingest + [(Correlate, Verdict(Correlate, Deps, {Ingest}, prior, fp))];
  }

  /** A disk run whose correlation fails takes the whole block of the ingest and the failing one. */
  lemma StepsOfFailedCorrelation(rows: map<Stage, Record>, run: RunInput)
    requires CoversDiskStages(run) && Base(Ingest, run.Prior(rows), run.Fp()).Run?
    requires run.succeeds(Ingest) && !run.succeeds(Correlate) && run.crashAfter >= 10
    ensures run.JobOn(rows).Steps() ==
            Block(Ingest, run.Fp()[Ingest], true) + Block(Correlate, run.Fp()[Correlate], false)
  {
    DiskPlan(run.Prior(rows), run.Fp());
    hide PlanOf, Running, Block;
    var plan := run.Actions(rows);
    assert plan[1..][0] == plan[1];
    assert Trace(plan[1..], run.Fp(), run.succeeds) == Block(Correlate, run.Fp()[Correlate], false) + [];
  }

  /** A disk run interrupted after six steps has just recorded the ingest. */
  lemma StepsOfInterruptedIngest(rows: map<Stage, Record>, run: RunInput)
    requires CoversDiskStages(run) && Base(Ingest, run.Prior(rows), run.Fp()).Run?
    requires run.succeeds(Ingest) && run.crashAfter == 6
    ensures run.JobOn(rows).Steps() == Block(Ingest, run.Fp()[Ingest], true)
  {
    DiskPlan(run.Prior(rows), run.Fp());
    hide PlanOf, Running, Block;
    var plan := run.Actions(rows);
    var rest := Trace(plan[1..], run.Fp(), run.succeeds);
    assert Trace(plan, run.Fp(), run.succeeds) == Block(Ingest, run.Fp()[Ingest], true) + rest;
  }

  lemma WholeBlock(s: Stage, f: string, ok: bool)
    ensures AllOf(Block(s, f, ok), s)
    ensures ok ==> Recorded(Block(s, f, ok), s, f)
  {
    var block := Block(s, f, ok);
    assert block[..|block|] == block;
    BlockTouches(s, f, ok, block, s, f);
  }

  /** The ingest is the one dependency that a disk run covers. */
  lemma DiskDependencies(run: RunInput, s: Stage)
    requires CoversDiskStages(run) && s in {Correlate, Scan}
    ensures s in run.Fp() && forall e :: e in Deps(s) && e in run.Fp() <==> e == Ingest
  {
    assert Ingest in run.Fp().Keys;
  }

  lemma IngestLeavesBehind(w: Case, aborted: RunInput, resumed: RunInput, s: Stage)
    requires Resumes(w, aborted, resumed) && CoversDiskStages(aborted) && s in {Correlate, Scan}
    requires s in aborted.Fp() && s in w.rows && w.rows[s] == Record(Done, aborted.Fp()[s])
    requires !Touched(aborted.JobOn(w.rows).Steps(), s)
    requires Recorded(aborted.JobOn(w.rows).Steps(), Ingest, aborted.Fp()[Ingest])
    ensures DoneButStale(After(After(w, aborted), resumed), resumed, s, Ingest)
  {
    DiskDependencies(aborted, s);
    hide PlanOf, Running, Trace, Deps, After, Resumes, Touched, Recorded, CoversDiskStages, DoneButStale;
    UntouchedIsLeftBehind(w, aborted, resumed, s, Ingest);
  }

  lemma FailedStepsSpareTheScan(rows: map<Stage, Record>, run: RunInput)
    requires CoversDiskStages(run) && Base(Ingest, run.Prior(rows), run.Fp()).Run?
    requires run.succeeds(Ingest) && !run.succeeds(Correlate) && run.crashAfter >= 10
    ensures !Touched(run.JobOn(rows).Steps(), Scan)
    ensures Recorded(run.JobOn(rows).Steps(), Ingest, run.Fp()[Ingest])
  {
    var f, g := run.Fp()[Ingest], run.Fp()[Correlate];
    StepsOfFailedCorrelation(rows, run);
    WholeBlock(Ingest, f, true);
    WholeBlock(Correlate, g, false);
    hide PlanOf, Running, Trace, Block, Recorded, Touched;
    var first, second := Block(Ingest, f, true), Block(Correlate, g, false);
    TouchedAppend(first, second, Scan, f);
    TouchedAppend(first, second, Ingest, f);
    OnlyTouches(first, Ingest, Scan);
    OnlyTouches(second, Correlate, Scan);
  }

  lemma InterruptedStepsSpareOthers(rows: map<Stage, Record>, run: RunInput, s: Stage)
    requires CoversDiskStages(run) && Base(Ingest, run.Prior(rows), run.Fp()).Run?
    requires run.succeeds(Ingest) && run.crashAfter == 6 && s != Ingest
    ensures !Touched(run.JobOn(rows).Steps(), s)
    ensures Recorded(run.JobOn(rows).Steps(), Ingest, run.Fp()[Ingest])
  {
    var f := run.Fp()[Ingest];
    StepsOfInterruptedIngest(rows, run);
    WholeBlock(Ingest, f, true);
    hide PlanOf, Running, Trace, Block, Recorded, Touched;
    OnlyTouches(Block(Ingest, f, true), Ingest, s);
  }

  /**
    Whenever the ingest runs, by itself or forced, and correlation then fails, the resumption leaves a
    scan that was Done behind.
   */
  lemma FailedCorrelationLeavesScanBehind(w: Case, aborted: RunInput, resumed: RunInput)
    requires Resumes(w, aborted, resumed) && CoversDiskStages(aborted)
    requires Base(Ingest, aborted.Prior(w.rows), aborted.Fp()).Run?
    requires Scan in w.rows && w.rows[Scan] == Record(Done, aborted.Fp()[Scan])
    requires aborted.succeeds(Ingest) && !aborted.succeeds(Correlate) && aborted.crashAfter >= 10
    ensures DoneButStale(After(After(w, aborted), resumed), resumed, Scan, Ingest)
  {
    DiskDependencies(aborted, Scan);
    hide PlanOf, Running, Trace, Deps, After, Resumes, Touched, Recorded, DoneButStale;
    FailedStepsSpareTheScan(w.rows, aborted);
    IngestLeavesBehind(w, aborted, resumed, Scan);
  }

  /** Interrupted right after ingesting, it leaves both later stages behind if they were Done. */
  lemma InterruptedAfterIngestLeavesBothBehind(w: Case, aborted: RunInput, resumed: RunInput, s: Stage)
    requires Resumes(w, aborted, resumed) && CoversDiskStages(aborted) && s in {Correlate, Scan}
    requires Base(Ingest, aborted.Prior(w.rows), aborted.Fp()).Run?
    requires s in w.rows && w.rows[s] == Record(Done, aborted.Fp()[s])
    requires aborted.succeeds(Ingest) && aborted.crashAfter == 6
    ensures DoneButStale(After(After(w, aborted), resumed), resumed, s, Ingest)
  {
    DiskDependencies(aborted, s);
    hide PlanOf, Running, Trace, Deps, After, Resumes, Touched, Recorded, DoneButStale;
    InterruptedStepsSpareOthers(w.rows, aborted, s);
    IngestLeavesBehind(w, aborted, resumed, s);
  }

  /**
    No crash and no failure is needed: a complete run that ingests and does not cover the scan leaves a
    Done scan behind, and a later complete run that finds the evidence unchanged does not repair it.
   */
  lemma RestrictedRunLeavesScanBehind(w: Case, restricted: RunInput, full: RunInput)
    requires restricted.JobOn(w.rows).Completes() && Ingest in restricted.Fp() && Scan !in restricted.Fp()
    requires Base(Ingest, restricted.Prior(w.rows), restricted.Fp()).Run?
    requires CoversDiskStages(full) && !full.flags.rerun && full.JobOn(After(w, restricted).rows).Completes()
    requires full.Fp()[Ingest] == restricted.Fp()[Ingest]
    requires Scan in w.rows && w.rows[Scan] == Record(Done, full.Fp()[Scan])
    ensures DoneButStale(After(After(w, restricted), full), full, Scan, Ingest)
  {
    var mid, job := After(w, restricted), restricted.JobOn(w.rows);
    PlanVerdict(restricted, w.rows, Ingest);
    CompleteRunExecutes(w, restricted, Ingest);
    UncoveredStageIsNotExecuted(w, restricted, Scan);
    CompleteRunRow(w, restricted, Ingest);
    UncoveredRow(w, restricted, Scan);
    CompleteRunRow(mid, full, Scan);
    ResumeFreshIff(w, restricted, full, Scan, Ingest);
    hide PlanOf, Running, Trace, Replay, After, UpToDate, Executes;
    assert Contented(full, mid.rows, Scan);
  }

  // ---- histories from the empty case

  function DiskRun(evidence: string, flags: Flags, correlates: bool, crashAfter: nat): RunInput {
    RunInput([Ingest, Correlate, Scan], flags,
             map[Ingest := evidence, Correlate := "rules", Scan := "rules"],
             (s: Stage) => s != Correlate || correlates, crashAfter)
  }

  const NORMAL := Flags(false, false, false, None)
  const FORCED := Flags(false, false, true, None)

  lemma {:induction false} TraceLength(actions: seq<(Stage, Action)>, fp: map<Stage, string>, succeeds: Stage -> bool)
    ensures |Trace(actions, fp, succeeds)| <= 6 * |actions|
  {
    if actions != [] {
      TraceLength(actions[1..], fp, succeeds);
    }
  }

  lemma {:induction false} PlanLength<S>(order: seq<S>, deps: S -> set<S>, prior: map<S, Record>, fp: map<S, string>)
    ensures |PlanOf(order, deps, prior, fp)| <= |order|
  {
    if order != [] {
      PlanLength(order[..|order| - 1], deps, prior, fp);
    }
  }

  /** A run in which no stage fails and that is given time for four stages completes. */
  lemma UndisturbedRunCompletes(run: RunInput, rows: map<Stage, Record>)
    requires run.crashAfter >= 24 && forall s :: run.succeeds(s)
    ensures run.JobOn(rows).Completes()
  {
    PlanLength(ORDER, Deps, run.Prior(rows), run.Fp());
    hide PlanOf, Running;
    TraceLength(run.Actions(rows), run.Fp(), run.succeeds);
  }

  lemma DiskRunCovers(evidence: string, flags: Flags, correlates: bool, crashAfter: nat)
    requires flags.only.None?
    ensures var run := DiskRun(evidence, flags, correlates, crashAfter);
            CoversDiskStages(run) && run.Fp() == map[Ingest := evidence, Correlate := "rules", Scan := "rules"]
  {
    var run := DiskRun(evidence, flags, correlates, crashAfter);
    assert run.applicable[0] == Ingest && run.applicable[1] == Correlate && run.applicable[2] == Scan;
    assert run.Fp().Keys == {Ingest, Correlate, Scan};
  }

  /** The case after a first complete run on the evidence. */
  function Settled(evidence: string): Case { After(EMPTY_CASE, DiskRun(evidence, NORMAL, true, 24)) }

  lemma SettledRows(evidence: string, s: Stage)
    requires s in {Ingest, Correlate, Scan}
    ensures var rows := Settled(evidence).rows;
            s in rows && rows[s] == Record(Done, if s == Ingest then evidence else "rules")
  {
    var cold := DiskRun(evidence, NORMAL, true, 24);
    UndisturbedRunCompletes(cold, EMPTY_CASE.rows);
    DiskRunCovers(evidence, NORMAL, true, 24);
    hide PlanOf, Running, Trace, Replay;
    CompleteRunRow(EMPTY_CASE, cold, s);
  }

  /** A cold run, a run on changed evidence whose correlation fails, and its resumption. */
  lemma DoneRowsCanBeStale(before: string, changed: string)
    requires before != changed
    ensures var aborted, resumed := DiskRun(changed, NORMAL, false, 24), DiskRun(changed, NORMAL, true, 24);
            var w := After(After(Settled(before), aborted), resumed);
            && DoneButStale(w, resumed, Scan, Ingest)
            && forall s :: s in {Ingest, Correlate, Scan} ==> s in w.rows && w.rows[s] == Record(Done, resumed.Fp()[s])
  {
    var w, aborted, resumed := Settled(before), DiskRun(changed, NORMAL, false, 24), DiskRun(changed, NORMAL, true, 24);
    SettledRows(before, Ingest);
    SettledRows(before, Scan);
    DiskRunCovers(changed, NORMAL, false, 24);
    DiskRunCovers(changed, NORMAL, true, 24);
    hide PlanOf, Running, Trace, Replay, After, Settled, DoneButStale;
    UndisturbedRunCompletes(resumed, After(w, aborted).rows);
    FailedCorrelationLeavesScanBehind(w, aborted, resumed);
    var end := After(After(w, aborted), resumed);
    forall s | s in {Ingest, Correlate, Scan} ensures s in end.rows && end.rows[s] == Record(Done, resumed.Fp()[s]) {
      CompleteRunRow(After(w, aborted), resumed, s);
    }
  }

  /** A cold run, a forced one interrupted after its ingest, and a normal one: the evidence never changes. */
  lemma InterruptedRerunEndsStale(evidence: string)
    ensures var aborted, resumed := DiskRun(evidence, FORCED, true, 6), DiskRun(evidence, NORMAL, true, 24);
            var w := After(After(Settled(evidence), aborted), resumed);
            DoneButStale(w, resumed, Correlate, Ingest) && DoneButStale(w, resumed, Scan, Ingest)
  {
    var w := Settled(evidence);
    var aborted, resumed := DiskRun(evidence, FORCED, true, 6), DiskRun(evidence, NORMAL, true, 24);
    SettledRows(evidence, Correlate);
    SettledRows(evidence, Scan);
    DiskRunCovers(evidence, FORCED, true, 6);
    DiskRunCovers(evidence, NORMAL, true, 24);
    hide PlanOf, Running, Trace, Replay, After, Settled, DoneButStale;
    UndisturbedRunCompletes(resumed, After(w, aborted).rows);
    InterruptedAfterIngestLeavesBothBehind(w, aborted, resumed, Correlate);
    InterruptedAfterIngestLeavesBothBehind(w, aborted, resumed, Scan);
  }

  /** A run without the scan, as `--no-scan` makes it. */
  function NoScanRun(evidence: string): RunInput {
    RunInput(ApplicableStages(true, false, Flags(true, false, false, None)), Flags(true, false, false, None),
             map[Ingest := evidence, Correlate := "rules", Scan := "rules"], (s: Stage) => true, 24)
  }

  lemma NoScanRunCovers(evidence: string)
    ensures Ingest in NoScanRun(evidence).Fp() && NoScanRun(evidence).Fp()[Ingest] == evidence
    ensures Scan !in NoScanRun(evidence).Fp()
    ensures NoScanRun(evidence).crashAfter >= 24 && forall s :: NoScanRun(evidence).succeeds(s)
    ensures !NoScanRun(evidence).flags.rerun
  {
    OrderIsTopological();
  }

  /** Three complete runs, nothing forced: a cold one, one without the scan on changed evidence, a full one. */
  lemma NoScanEndsStale(before: string, changed: string)
    requires before != changed
    ensures var full := DiskRun(changed, NORMAL, true, 24);
            DoneButStale(After(After(Settled(before), NoScanRun(changed)), full), full, Scan, Ingest)
  {
    DiskRunCovers(changed, NORMAL, true, 24);
    hide PlanOf, Running, Settled, After;
    NoScanThenFull(before, changed, DiskRun(changed, NORMAL, true, 24));
  }

  lemma NoScanThenFull(before: string, changed: string, full: RunInput)
    requires before != changed && CoversDiskStages(full) && !full.flags.rerun
    requires full.Fp()[Ingest] == changed && full.Fp()[Scan] == "rules"
    requires full.crashAfter >= 24 && forall s :: full.succeeds(s)
    ensures DoneButStale(After(After(Settled(before), NoScanRun(changed)), full), full, Scan, Ingest)
  {
    hide PlanOf, Running, Trace, Replay, After, Settled, DoneButStale, NoScanRun, NoFailure, Deps, Filter, Allowed;
    var w, restricted := Settled(before), NoScanRun(changed);
    SettledRows(before, Ingest);
    SettledRows(before, Scan);
    NoScanRunCovers(changed);
    UndisturbedRunCompletes(restricted, w.rows);
    UndisturbedRunCompletes(full, After(w, restricted).rows);
    RestrictedRunLeavesScanBehind(w, restricted, full);
  }
}
