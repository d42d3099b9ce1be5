/**
  What the flags and the rows make of a run, in the fields of its input.
 */
module FlagLaws {
  import opened Wrappers
  import opened Sequences
  import opened Planner
  import opened Pipeline
  import opened CrashSafety
  import opened Execution
  import opened Resume

  ghost predicate Plans(run: RunInput, rows: map<Stage, Record>, s: Stage) {
    exists k :: 0 <= k < |run.Actions(rows)| && run.Actions(rows)[k].0 == s
  }

  lemma PlansCovered(run: RunInput, rows: map<Stage, Record>, s: Stage)
    ensures Plans(run, rows, s) <==> s in run.Fp()
  {
    RunPlan(run, rows);
    hide PlanOf, Running, RunInput.Fp;
    if s in run.Fp() {
      var k :| 0 <= k < |run.JobOn(rows).actions| && run.JobOn(rows).actions[k].0 == s;
      assert run.Actions(rows)[k].0 == s;
    }
  }

  /** Which stages a run plans: the applicable ones with a fingerprint or, under `--only`, that one of them. */
  lemma PlansIff(run: RunInput, rows: map<Stage, Record>, s: Stage)
    ensures Plans(run, rows, s) <==>
            s in run.applicable && s in run.fp && (run.flags.only.Some? ==> run.flags.only.value == s)
    ensures Plans(run, rows, s) <==> s in run.Fp()
    ensures Plans(run, rows, s) ==> run.Fp()[s] == run.fp[s]
  {
    PlansCovered(run, rows, s);
    hide Plans;
  }

  /** The stage is planned and its row is not Done under its current fingerprint. */
  ghost predicate IsBehind(run: RunInput, rows: map<Stage, Record>, s: Stage) {
    Plans(run, rows, s) && s in run.fp && (s !in rows || rows[s] != Record(Done, run.fp[s]))
  }

  /** The evidence at hand and the opt-out flags decide the applicable stages, each flag over its own stage. */
  lemma ApplicableIff(hasDisk: bool, hasMemory: bool, flags: Flags)
    ensures var stages := ApplicableStages(hasDisk, hasMemory, flags);
            && (Ingest in stages <==> hasDisk)
            && (Memory in stages <==> hasMemory)
            && (Correlate in stages <==> hasDisk && !flags.noCorrelate)
            && (Scan in stages <==> hasDisk && !flags.noScan)
  {
    OrderIsTopological();
  }

  /** Why a planned stage runs, row by row; ingest and memory feed correlation and scan and nothing else does. */
  lemma ReasonIff(run: RunInput, rows: map<Stage, Record>, s: Stage)
    requires Plans(run, rows, s)
    ensures s in run.Fp() && s in run.fp
    ensures var action := run.ActionOn(rows, s);
            && (action == Run(Missing) <==> run.flags.rerun || s !in rows)
            && (action == Run(Unfinished) <==> !run.flags.rerun && s in rows && rows[s].status == Incomplete)
            && (action == Run(Stale) <==>
                  && !run.flags.rerun && s in rows && rows[s].status == Done
                  && rows[s].fingerprint != run.fp[s])
            && (action == Run(UpstreamRerun) <==>
                  && !run.flags.rerun && s in rows && rows[s] == Record(Done, run.fp[s])
                  && (s == Correlate || s == Scan)
                  && (IsBehind(run, rows, Ingest) || IsBehind(run, rows, Memory)))
  {
    PlansIff(run, rows, s);
    PlansIff(run, rows, Ingest);
    PlansIff(run, rows, Memory);
    hide PlanOf, Running, Plans;
    PlanVerdict(run, rows, s);
    if Ingest in run.Fp() {
      PlanVerdict(run, rows, Ingest);
    }
    if Memory in run.Fp() {
      PlanVerdict(run, rows, Memory);
    }
    hide RunInput.ActionOn;
    assert Deps(s) == if s == Correlate || s == Scan then {Ingest, Memory} else {};
    assert Deps(Ingest) == {} && Deps(Memory) == {};
  }

  /** Under `--only` no other stage is touched: it does not begin and its row stays, wherever the run stops. */
  lemma OnlyTouchesItsStage(w: Case, run: RunInput, t: Stage, s: Stage)
    requires run.flags.only == Some(t) && s != t
    ensures !Touched(run.JobOn(w.rows).Steps(), s) && !BeganIn(run.JobOn(w.rows).Steps(), s)
    ensures s in After(w, run).rows <==> s in w.rows
    ensures s in w.rows ==> After(w, run).rows[s] == w.rows[s]
  {
    PlansIff(run, w.rows, s);
    OtherStagesUntouched(w, run, s);
    UncoveredRow(w, run, s);
    hide PlanOf, Running, Trace, Replay, After, Plans;
    assert !BeganIn(run.JobOn(w.rows).Steps(), s);
  }

  /** Under `--only` the plan is the one stage, if it is applicable and has a fingerprint, and otherwise empty. */
  lemma OnlyPlansItsStage(run: RunInput, rows: map<Stage, Record>, t: Stage)
    requires run.flags.only == Some(t)
    ensures if t in run.applicable && t in run.fp
            then |run.Actions(rows)| == 1 && run.Actions(rows)[0].0 == t
            else run.Actions(rows) == [] && run.JobOn(rows).Steps() == []
  {
    var actions := run.Actions(rows);
    RunPlan(run, rows);
    PlansIff(run, rows, t);
    hide PlanOf, Running;
    forall k | 0 <= k < |actions| ensures actions[k].0 == t && t in run.applicable && t in run.fp {
      PlansIff(run, rows, actions[k].0);
    }
    if |actions| >= 2 {
      SecondDiffers(actions);
    } else if actions == [] {
      assert run.JobOn(rows) == Job(actions, run.Fp(), run.succeeds, run.crashAfter);
      assert Trace(actions, run.Fp(), run.succeeds) == [] && Cut<Step>([], run.crashAfter) == [];
    } else {
      assert actions[0].0 == t;
    }
  }

  lemma SecondDiffers(actions: seq<(Stage, Action)>)
    requires |actions| >= 2 && InOrder(actions, Deps)
    ensures actions[1].0 != actions[0].0
  {}
}
