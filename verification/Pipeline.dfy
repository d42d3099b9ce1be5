/**
  The resumable pipeline: flags, the durable stage rows, and a run that may stop
  after any of its steps.
 */
module Pipeline {
  import opened Wrappers
  import opened Sequences
  import opened Sorting
  import opened Planner

  datatype Stage = Ingest | Correlate | Scan | Memory

  const ORDER: seq<Stage> := [Ingest, Memory, Correlate, Scan]

  function Deps(s: Stage): set<Stage> {
    match s
    case Ingest | Memory => {}
    case Correlate | Scan => {Ingest, Memory}
  }

  lemma OrderIsTopological()
    ensures Distinct(ORDER) && Topological(ORDER, Deps)
    ensures forall s: Stage :: s in ORDER
  {
    forall s: Stage ensures s in ORDER {
      match s
      case Ingest => assert ORDER[0] == s;
      case Memory => assert ORDER[1] == s;
      case Correlate => assert ORDER[2] == s;
      case Scan => assert ORDER[3] == s;
    }
  }

  // ---- flags

  datatype Flags = Flags(noScan: bool, noCorrelate: bool, rerun: bool, only: Option<Stage>)

  function ApplicableStages(hasDisk: bool, hasMemory: bool, flags: Flags): seq<Stage> {
    Filter((s: Stage) =>
             match s
             case Ingest => hasDisk
             case Correlate => hasDisk && !flags.noCorrelate
             case Scan => hasDisk && !flags.noScan
             case Memory => hasMemory,
           ORDER)
  }

  /** The opt-out flags never take away a stage that a remaining stage depends on. */
  lemma FlagsKeepDependencies(hasDisk: bool, hasMemory: bool, flags: Flags, s: Stage, d: Stage)
    requires s in ApplicableStages(hasDisk, hasMemory, flags) && d in Deps(s)
    ensures d in ApplicableStages(hasDisk, hasMemory, flags) <==> (if d == Ingest then hasDisk else hasMemory)
  {
    OrderIsTopological();
  }

  /** The stages a run may touch. */
  function Allowed(applicable: seq<Stage>, flags: Flags): set<Stage> {
    match flags.only
    case Some(s) => if s in applicable then {s} else {}
    case None => set s | s in applicable
  }

  function AllowedFp(applicable: seq<Stage>, flags: Flags, fp: map<Stage, string>): map<Stage, string> {
    map s | s in fp && s in Allowed(applicable, flags) :: fp[s]
  }

  /** What a run is given; `succeeds` and `crashAfter` are chosen by its environment. */
  datatype RunInput = RunInput(
    applicable: seq<Stage>,
    flags: Flags,
    fp: map<Stage, string>,
    succeeds: Stage -> bool,
    crashAfter: nat)
  {
    function Fp(): map<Stage, string> { AllowedFp(applicable, flags, fp) }

    function Prior(rows: map<Stage, Record>): map<Stage, Record> { if flags.rerun then map[] else rows }

    function Actions(rows: map<Stage, Record>): seq<(Stage, Action)> {
      PlanOf(ORDER, Deps, Prior(rows), Fp())
    }

    function JobOn(rows: map<Stage, Record>): Job { Job(Actions(rows), Fp(), succeeds, crashAfter) }

    /** The verdict on one of the run's stages. */
    function ActionOn(rows: map<Stage, Record>, s: Stage): Action
      requires s in Fp()
    {
      ActionOf(s, ORDER, Deps, Prior(rows), Fp())
    }
  }

  // ---- durable steps

  /** One durable step. Recording a row is a deletion followed by an insertion. */
  datatype Step =
    | Deleted(stage: Stage)
    | Inserted(stage: Stage, rec: Record)
    | Began(stage: Stage, fp: string)
    | Finished(stage: Stage, fp: string)
    | Failed(stage: Stage, fp: string)

  function Recording(s: Stage, rec: Record): seq<Step> { [Deleted(s), Inserted(s, rec)] }

  /** The steps of running one stage to its end. */
  function Block(s: Stage, f: string, ok: bool): seq<Step> {
    Recording(s, Record(Incomplete, f)) + [Began(s, f)]
    + if ok then [Finished(s, f)] + Recording(s, Record(Done, f)) else [Failed(s, f)]
  }

  /** The steps of a whole run that does not crash: it ends at the first failing stage. */
  function Trace(actions: seq<(Stage, Action)>, fp: map<Stage, string>, succeeds: Stage -> bool): seq<Step> {
    if actions == [] then []
    else
      var (s, action) := actions[0];
      if action.Skip? || s !in fp then Trace(actions[1..], fp, succeeds)
      else Block(s, fp[s], succeeds(s)) + if succeeds(s) then Trace(actions[1..], fp, succeeds) else []
  }

  predicate NoFailure(actions: seq<(Stage, Action)>, succeeds: Stage -> bool) {
    forall p | p in actions :: p.1.Run? ==> succeeds(p.0)
  }

  function Cut<T>(s: seq<T>, k: nat): seq<T> { if k <= |s| then s[..k] else s }

  function Apply(rows: map<Stage, Record>, step: Step): map<Stage, Record> {
    match step
    case Deleted(s) => rows - {s}
    case Inserted(s, rec) => rows[s := rec]
    case _ => rows
  }

  function Replay(rows: map<Stage, Record>, steps: seq<Step>): map<Stage, Record> {
    if steps == [] then rows else Apply(Replay(rows, steps[..|steps| - 1]), steps[|steps| - 1])
  }

  /** The durable rows with everything that ever happened to the case. */
  datatype Case = Case(rows: map<Stage, Record>, log: seq<Step>)

  const EMPTY_CASE := Case(map[], [])

  /** A planned run: what is left once the rows have been read. */
  datatype Job = Job(actions: seq<(Stage, Action)>, fp: map<Stage, string>, succeeds: Stage -> bool, crashAfter: nat)
  {
    /** The durable steps taken before the run stops. */
    function Steps(): seq<Step> { Cut(Trace(actions, fp, succeeds), crashAfter) }

    predicate Completes() {
      NoFailure(actions, succeeds) && |Trace(actions, fp, succeeds)| <= crashAfter
    }

    ghost predicate Valid() { forall k :: 0 <= k < |actions| ==> actions[k].0 in fp }
  }

  function Grown(w: Case, steps: seq<Step>): Case { Case(Replay(w.rows, steps), w.log + steps) }

  function After(w: Case, run: RunInput): Case { Grown(w, run.JobOn(w.rows).Steps()) }

  /** A history of runs. */
  function AfterAll(w: Case, runs: seq<RunInput>): Case {
    if runs == [] then w else After(AfterAll(w, runs[..|runs| - 1]), runs[|runs| - 1])
  }

  // ---- the executor

  /** Why a run did not complete. */
  datatype Stop = Crashed | StageFailed(stage: Stage)

  datatype Report = Report(ran: seq<(Stage, Reason)>, skipped: seq<Stage>)

  function ReportOf(actions: seq<(Stage, Action)>): Report {
    if actions == [] then Report([], [])
    else
      var r, (s, action) := ReportOf(actions[..|actions| - 1]), actions[|actions| - 1];
      if action.Skip? then r.(skipped := r.skipped + [s]) else r.(ran := r.ran + [(s, action.reason)])
  }

  /** The report lists every planned stage once: run with its reason, or skipped. */
  lemma {:induction false} ReportAccounts(actions: seq<(Stage, Action)>)
    ensures var r := ReportOf(actions);
            && |r.ran| + |r.skipped| == |actions|
            && (forall s, reason :: (s, reason) in r.ran <==> (s, Run(reason)) in actions)
            && (forall s :: s in r.skipped <==> (s, Skip) in actions)
  {
    if actions != [] {
      var init, last := actions[..|actions| - 1], actions[|actions| - 1];
      ReportAccounts(init);
      assert actions == init + [last];
      var before, after := ReportOf(init), ReportOf(actions);
      if last.1.Skip? {
        assert after == Report(before.ran, before.skipped + [last.0]) && last == (last.0, Skip);
      } else {
        assert after == Report(before.ran + [(last.0, last.1.reason)], before.skipped);
        assert last == (last.0, Run(last.1.reason));
      }
    }
  }

  lemma {:induction false} ReplayAppend(rows: map<Stage, Record>, a: seq<Step>, b: seq<Step>)
    ensures Replay(rows, a + b) == Replay(Replay(rows, a), b)
  {
    if b == [] {
      assert a + b == a;
    } else {
      ReplayAppend(rows, a, b[..|b| - 1]);
      assert (a + b)[..|a + b| - 1] == a + b[..|b| - 1];
    }
  }

  lemma GrownByNothing(w: Case)
    ensures Grown(w, []) == w
  {
    assert w.log + [] == w.log;
  }

  lemma GrownAppend(w: Case, a: seq<Step>, b: seq<Step>)
    ensures Grown(Grown(w, a), b) == Grown(w, a + b)
  {
    hide Replay;
    ReplayAppend(w.rows, a, b);
    assert w.log + a + b == w.log + (a + b);
  }

  lemma CutAppend<T>(a: seq<T>, b: seq<T>, k: nat)
    ensures k <= |a| ==> Cut(a + b, k) == Cut(a, k)
    ensures |a| <= k ==> Cut(a + b, k) == a + Cut(b, k - |a|)
  {}

  /** What a run plans, stage by stage: the pass of `Planner` read off for this pipeline. */
  lemma RunPlan(run: RunInput, rows: map<Stage, Record>)
    ensures run.JobOn(rows).Valid()
    ensures var actions := run.JobOn(rows).actions;
            && (forall k :: 0 <= k < |actions| ==>
                  actions[k].0 in run.Fp() && actions[k].1 == run.ActionOn(rows, actions[k].0))
            && (forall s :: s in run.Fp() ==> exists k :: 0 <= k < |actions| && actions[k].0 == s)
            && InOrder(actions, Deps)
    ensures forall s :: s in run.Fp() ==>
              var base := Base(s, run.Prior(rows), run.Fp());
              run.ActionOn(rows, s) ==
              if base == Skip && exists d :: d in Deps(s) && d in run.Fp() && run.ActionOn(rows, d).Run?
              then Run(UpstreamRerun) else base
  {
    OrderIsTopological();
    PlanByStage(ORDER, Deps, run.Prior(rows), run.Fp());
    var actions := run.Actions(rows);
    assert actions == PlanOf(ORDER, Deps, run.Prior(rows), run.Fp());
    forall k | 0 <= k < |actions| ensures actions[k].0 in run.Fp() && actions[k].1 == run.ActionOn(rows, actions[k].0) {
      assert PlanOf(ORDER, Deps, run.Prior(rows), run.Fp())[k].0 in run.Fp();
    }
  }

  lemma DependenciesAreRoots(s: Stage, d: Stage)
    requires d in Deps(s)
    ensures Deps(d) == {}
  {}

  /** The same for one stage. */
  lemma PlanVerdict(run: RunInput, rows: map<Stage, Record>, s: Stage)
    requires s in run.Fp()
    ensures run.ActionOn(rows, s) ==
            if Base(s, run.Prior(rows), run.Fp()) == Skip
               && exists d :: d in Deps(s) && d in run.Fp() && run.ActionOn(rows, d).Run?
            then Run(UpstreamRerun) else Base(s, run.Prior(rows), run.Fp())
  {
    RunPlan(run, rows);
  }

  /** The stages the run plans to execute. */
  ghost function PlannedToRun(run: RunInput, rows: map<Stage, Record>): set<Stage> {
    set s | s in run.Fp() && run.ActionOn(rows, s).Run?
  }

  /** `x` holds every covered stage that must run by itself or because a dependency is in `x`. */
  ghost predicate CascadeClosed(x: set<Stage>, run: RunInput, rows: map<Stage, Record>) {
    forall s :: s in run.Fp() && (Base(s, run.Prior(rows), run.Fp()).Run? || Deps(s) * x != {}) ==> s in x
  }

  /** A run plans the least set of covered stages that the cascade demands, whatever its flags and rows. */
  lemma RunIsLeastFixpoint(run: RunInput, rows: map<Stage, Record>)
    ensures CascadeClosed(PlannedToRun(run, rows), run, rows)
    ensures forall x :: CascadeClosed(x, run, rows) ==> PlannedToRun(run, rows) <= x
  {
    OrderIsTopological();
    var prior, fp := run.Prior(rows), run.Fp();
    PlanIsLeastFixpoint(ORDER, Deps, prior, fp);
    PlanEntries(ORDER, Deps, prior, fp);
    hide Running, PlanOf, Base;
    var running := Running(ORDER, Deps, prior, fp);
    forall s ensures s in running <==> s in PlannedToRun(run, rows) {
      if s in fp {
        assert run.ActionOn(rows, s) == Verdict(s, Deps, running, prior, fp);
      }
    }
    assert running == PlannedToRun(run, rows);
    forall x ensures Closed(x, ORDER, Deps, prior, fp) <==> CascadeClosed(x, run, rows) {}
  }

  /** The first `k` planned stages are through, having taken the steps `done`. */
  ghost predicate Through(job: Job, k: nat, done: seq<Step>) {
    && k <= |job.actions|
    && NoFailure(job.actions[..k], job.succeeds)
    && |done| <= job.crashAfter
    && Trace(job.actions, job.fp, job.succeeds) == done + Trace(job.actions[k..], job.fp, job.succeeds)
  }

  lemma ThroughStart(job: Job)
    ensures Through(job, 0, [])
  {
    assert job.actions[0..] == job.actions && job.actions[..0] == [];
  }

  lemma ThroughEnd(job: Job, done: seq<Step>)
    requires Through(job, |job.actions|, done)
    ensures job.Completes() && job.Steps() == done
  {
    assert job.actions[..|job.actions|] == job.actions;
    assert Trace(job.actions, job.fp, job.succeeds) == done;
  }

  lemma ThroughSkipped(job: Job, k: nat, done: seq<Step>)
    requires Through(job, k, done) && k < |job.actions| && job.actions[k].1.Skip?
    ensures Through(job, k + 1, done)
  {
    assert job.actions[..k + 1] == job.actions[..k] + [job.actions[k]] && job.actions[k..][1..] == job.actions[k + 1..];
  }

  lemma ThroughRun(job: Job, k: nat, done: seq<Step>)
    requires job.Valid() && Through(job, k, done) && k < |job.actions| && job.actions[k].1.Run?
    ensures var s := job.actions[k].0;
            var ok, block := job.succeeds(s), Block(s, job.fp[s], job.succeeds(s));
            if ok && |done| + |block| <= job.crashAfter
            then Through(job, k + 1, done + block)
            else !job.Completes() && job.Steps() == done + Cut(block, job.crashAfter - |done|)
  {
    hide Block;
    var s := job.actions[k].0;
    var block := Block(s, job.fp[s], job.succeeds(s));
    var rest := if job.succeeds(s) then Trace(job.actions[k + 1..], job.fp, job.succeeds) else [];
    assert job.actions[..k + 1] == job.actions[..k] + [job.actions[k]];
    assert job.actions[k..][1..] == job.actions[k + 1..];
    assert job.actions[k] in job.actions;
    assert Trace(job.actions, job.fp, job.succeeds) == done + (block + rest) == done + block + rest;
    CutAppend(done, block + rest, job.crashAfter);
    CutAppend(block, rest, job.crashAfter - |done|);
  }

  lemma ReplayOne(rows: map<Stage, Record>, step: Step)
    ensures Replay(rows, [step]) == Apply(rows, step)
  {
    assert [step][..0] == [];
  }

  class CaseDb {
    var rows: map<Stage, Record>
    ghost var log: seq<Step>

    constructor ()
      ensures State() == EMPTY_CASE
    {
      rows, log := map[], [];
    }

    ghost function State(): Case
      reads this
    {
      Case(rows, log)
    }

    /** The case after some more steps. */
    ghost function Extended(steps: seq<Step>): Case
      reads this
    {
      Grown(State(), steps)
    }

    method Perform(step: Step)
      modifies this
      ensures State() == old(Extended([step]))
    {
      ReplayOne(rows, step);
      match step {
        case Deleted(s) => rows := rows - {s};
        case Inserted(s, rec) => rows := rows[s := rec];
        case _ =>
      }
      log := log + [step];
    }

    /** Performs the steps in order, as far as the budget reaches. */
    method PerformAll(steps: seq<Step>, budget: nat) returns (left: nat, done: bool)
      modifies this
      ensures State() == old(Extended(Cut(steps, budget)))
      ensures left == budget - |Cut(steps, budget)|
      ensures done <==> |steps| <= budget
    {
      left := budget;
      for k := 0 to |steps|
        invariant left == budget - k
        invariant State() == old(Extended(steps[..k]))
      {
        if left == 0 {
          return left, false;
        }
        ReplayAppend(old(rows), steps[..k], [steps[k]]);
        assert steps[..k + 1] == steps[..k] + [steps[k]];
        Perform(steps[k]);
        left := left - 1;
      }
      assert steps[..|steps|] == steps;
      done := true;
    }

    /** Marks the stage incomplete, executes it, marks it done; stops where the budget or the stage fails. */
    method RunStage(s: Stage, f: string, ok: bool, budget: nat) returns (left: nat, stop: Option<Stop>)
      modifies this
      ensures State() == old(Extended(Cut(Block(s, f, ok), budget)))
      ensures left == budget - |Cut(Block(s, f, ok), budget)|
      ensures stop == if budget < |Block(s, f, ok)| then Some(Crashed) else if ok then None else Some(StageFailed(s))
    {
      hide Replay;
      var first := Recording(s, Record(Incomplete, f));
      var second := [Began(s, f), if ok then Finished(s, f) else Failed(s, f)];
      var third := if ok then Recording(s, Record(Done, f)) else [];
      assert Block(s, f, ok) == first + second + third == first + (second + third);
      CutAppend(first, second + third, budget);
      var done;
      left, done := PerformAll(first, budget);
      if !done {
        return left, Some(Crashed);
      }
      CutAppend(second, third, left);
      GrownAppend(old(State()), first, Cut(second, left));
      left, done := PerformAll(second, left);
      if !done {
        return left, Some(Crashed);
      }
      if !ok {
        assert second + third == second;
        return left, Some(StageFailed(s));
      }
      assert first + Cut(second + third, budget - |first|) == first + second + Cut(third, left);
      GrownAppend(old(State()), first + second, Cut(third, left));
      left, done := PerformAll(third, left);
      stop := if done then None else Some(Crashed);
    }

    /** Runs the planned stages in order. */
    method RunJob(job: Job) returns (r: Result<Report, Stop>)
      requires job.Valid()
      modifies this
      ensures State() == old(Extended(job.Steps()))
      ensures r.Ok? <==> job.Completes()
      ensures r.Ok? ==> r.value == ReportOf(job.actions)
    {
      hide Block, Trace, Replay, Through, NoFailure;
      ThroughStart(job);
      GrownByNothing(State());
      var left, report := job.crashAfter, Report([], []);
      ghost var done: seq<Step> := [];
      for k := 0 to |job.actions|
        invariant Through(job, k, done)
        invariant State() == Grown(old(State()), done) && |done| + left == job.crashAfter
        invariant report == ReportOf(job.actions[..k])
      {
        var (stage, action) := job.actions[k];
        assert job.actions[..k + 1][..k] == job.actions[..k];
        match action {
          case Skip =>
            ThroughSkipped(job, k, done);
            report := report.(skipped := report.skipped + [stage]);
          case Run(reason) =>
            ThroughRun(job, k, done);
            var f, ok := job.fp[stage], job.succeeds(stage);
            ghost var block := Block(stage, f, ok);
            ghost var taken := Cut(block, left);
            GrownAppend(old(State()), done, taken);
            done := done + taken;
            var stop;
            left, stop := RunStage(stage, f, ok, left);
            if stop.Some? {
              return Err(stop.value);
            }
            assert taken == block;
            report := report.(ran := report.ran + [(stage, reason)]);
        }
      }
      assert job.actions[..|job.actions|] == job.actions;
      ThroughEnd(job, done);
      r := Ok(report);
    }

    /** The front door: plan against the durable rows, then run the plan. */
    method RunBare(run: RunInput) returns (r: Result<Report, Stop>)
      modifies this
      ensures State() == After(old(State()), run)
      ensures r.Ok? <==> run.JobOn(old(rows)).Completes()
      ensures r.Ok? ==> r.value == ReportOf(run.Actions(old(rows)))
    {
      var actions := Plan(ORDER, Deps, run.Prior(rows), run.Fp());
      RunPlan(run, rows);
      r := RunJob(Job(actions, run.Fp(), run.succeeds, run.crashAfter));
    }
  }
}
