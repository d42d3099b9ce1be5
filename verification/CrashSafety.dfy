/**
  What the durable rows mean after any history of runs that may fail or crash
  after any step.
 */
module CrashSafety {
  import opened Wrappers
  import opened Sequences
  import opened Sorting
  import opened Planner
  import opened Pipeline

  /** The steps of one stage. */
  function Of(log: seq<Step>, s: Stage): seq<Step> { Filter((x: Step) => x.stage == s, log) }

  ghost predicate EndsWith(h: seq<Step>, tail: seq<Step>) { |tail| <= |h| && h[|h| - |tail|..] == tail }

  /** The durable row of `s` is explained by the last steps of that stage. */
  ghost predicate Justified(w: Case, s: Stage) {
    var h := Of(w.log, s);
    if s !in w.rows then h == [] || h[|h| - 1] == Deleted(s)
    else
      var f := w.rows[s].fingerprint;
      var marked := Inserted(s, Record(Incomplete, f));
      match w.rows[s].status
      case Done => EndsWith(h, [marked, Began(s, f), Finished(s, f), Deleted(s), Inserted(s, Record(Done, f))])
      case Incomplete =>
        || EndsWith(h, [marked])
        || EndsWith(h, [marked, Began(s, f)])
        || EndsWith(h, [marked, Began(s, f), Finished(s, f)])
        || EndsWith(h, [marked, Began(s, f), Failed(s, f)])
  }

  ghost predicate AllJustified(w: Case) { forall s :: Justified(w, s) }

  lemma OfAppend(a: seq<Step>, b: seq<Step>, s: Stage)
    ensures Of(a + b, s) == Of(a, s) + Of(b, s)
  {
    FilterAppend((x: Step) => x.stage == s, a, b);
  }

  ghost predicate AllOf(steps: seq<Step>, s: Stage) { forall k :: 0 <= k < |steps| ==> steps[k].stage == s }

  lemma {:induction false} OfOneStage(steps: seq<Step>, s: Stage, t: Stage)
    requires AllOf(steps, s)
    ensures Of(steps, t) == if s == t then steps else []
  {
    if steps != [] {
      assert steps[0].stage == s;
      OfOneStage(steps[1..], s, t);
      assert steps == [steps[0]] + steps[1..];
    }
  }

  lemma {:induction false} ReplayOther(rows: map<Stage, Record>, steps: seq<Step>, s: Stage, t: Stage)
    requires AllOf(steps, s) && s != t
    ensures t in Replay(rows, steps) <==> t in rows
    ensures t in rows ==> Replay(rows, steps)[t] == rows[t]
  {
    if steps != [] {
      assert steps[|steps| - 1].stage == s;
      ReplayOther(rows, steps[..|steps| - 1], s, t);
    }
  }

  /** The row of `s` after the first `k` steps of its block. */
  lemma RowDuringBlock(rows: map<Stage, Record>, s: Stage, f: string, ok: bool, k: nat)
    requires k <= |Block(s, f, ok)|
    ensures var r := Replay(rows, Block(s, f, ok)[..k]);
            if k == 0 then r == rows
            else if k == 1 || k == 5 then s !in r
            else s in r && r[s] == Record(if k == 6 then Done else Incomplete, f)
  {
    var b := Block(s, f, ok);
    if k > 0 {
      RowDuringBlock(rows, s, f, ok, k - 1);
      assert b[..k][..k - 1] == b[..k - 1];
    }
  }

  /** The block after its leading deletion, cut after `k` steps, spelled out. */
  lemma BlockTails(s: Stage, f: string, ok: bool, k: nat)
    requires 2 <= k <= |Block(s, f, ok)|
    ensures var marked := Inserted(s, Record(Incomplete, f));
            var tail := Block(s, f, ok)[1..k];
            match k
            case 2 => tail == [marked]
            case 3 => tail == [marked, Began(s, f)]
            case 4 => tail == [marked, Began(s, f), if ok then Finished(s, f) else Failed(s, f)]
            case 5 => tail[|tail| - 1] == Deleted(s)
            case _ => tail == [marked, Began(s, f), Finished(s, f), Deleted(s), Inserted(s, Record(Done, f))]
  {
    var marked, begun := Inserted(s, Record(Incomplete, f)), Began(s, f);
    if ok {
      assert Block(s, f, ok) == [Deleted(s), marked, begun, Finished(s, f), Deleted(s), Inserted(s, Record(Done, f))];
    } else {
      assert Block(s, f, ok) == [Deleted(s), marked, begun, Failed(s, f)];
    }
  }

  lemma BlockStages(s: Stage, f: string, ok: bool, k: nat)
    requires k <= |Block(s, f, ok)|
    ensures AllOf(Block(s, f, ok)[..k], s)
    ensures |Block(s, f, ok)| >= 4 && Block(s, f, ok)[0] == Deleted(s)
  {
    var block := Block(s, f, ok);
    var marking := Recording(s, Record(Incomplete, f));
    assert block[0] == marking[0] && block[1] == marking[1] && block[2] == Began(s, f);
    assert AllOf(block, s);
    assert forall i :: 0 <= i < k ==> block[..k][i] == block[i];
  }

  lemma JustifiedDuringBlock(w: Case, s: Stage, f: string, ok: bool, k: nat)
    requires 1 <= k <= |Block(s, f, ok)|
    ensures Justified(Grown(w, Block(s, f, ok)[..k]), s)
  {
    hide Replay, Filter, Block;
    var b := Block(s, f, ok)[..k];
    BlockStages(s, f, ok, k);
    OfAppend(w.log, b, s);
    OfOneStage(b, s, s);
    RowDuringBlock(w.rows, s, f, ok, k);
    if k == 1 {
      assert b == [Deleted(s)];
    } else {
      BlockTails(s, f, ok, k);
      var h, tail := Of(w.log, s) + b, b[1..];
      assert tail == Block(s, f, ok)[1..k];
      assert EndsWith(h, tail);
      assert h[|h| - 1] == tail[|tail| - 1];
    }
  }

  lemma BlockPrefixKeepsJustified(w: Case, s: Stage, f: string, ok: bool, k: nat)
    requires AllJustified(w) && k <= |Block(s, f, ok)|
    ensures AllJustified(Grown(w, Block(s, f, ok)[..k]))
  {
    hide Block;
    var b := Block(s, f, ok)[..k];
    BlockStages(s, f, ok, k);
    forall t ensures Justified(Grown(w, b), t) {
      if t == s && k > 0 {
        JustifiedDuringBlock(w, s, f, ok, k);
      } else if t == s {
        assert w.log + b == w.log && Grown(w, b) == w;
      } else {
        OfAppend(w.log, b, t);
        OfOneStage(b, s, t);
        assert Of(w.log, t) + [] == Of(w.log, t);
        ReplayOther(w.rows, b, s, t);
        assert Justified(w, t);
      }
    }
  }

  lemma {:induction false} TraceCutKeepsJustified(w: Case, actions: seq<(Stage, Action)>, fp: map<Stage, string>,
                                                  succeeds: Stage -> bool, k: nat)
    requires AllJustified(w)
    ensures AllJustified(Grown(w, Cut(Trace(actions, fp, succeeds), k)))
    decreases |actions|
  {
    hide Block;
    if actions == [] {
      assert w.log + [] == w.log;
    } else {
      var s := actions[0].0;
      if actions[0].1.Skip? || s !in fp {
        TraceCutKeepsJustified(w, actions[1..], fp, succeeds, k);
      } else {
        var block := Block(s, fp[s], succeeds(s));
        var rest := if succeeds(s) then Trace(actions[1..], fp, succeeds) else [];
        BlockPrefixKeepsJustified(w, s, fp[s], succeeds(s), if k <= |block| then k else |block|);
        CutAppend(block, rest, k);
        if k > |block| {
          assert block[..|block|] == block;
          GrownAppend(w, block, Cut(rest, k - |block|));
          if succeeds(s) {
            TraceCutKeepsJustified(Grown(w, block), actions[1..], fp, succeeds, k - |block|);
          } else {
            assert block + Cut(rest, k - |block|) == block;
          }
        }
      }
    }
  }

  /**
    After any history of runs, each crashing or failing anywhere, a Done row carries the
    fingerprint of a run that marked the stage, began it and finished it, with nothing else
    happening to that stage since; an Incomplete row is the trace of an unfinished attempt.
   */
  lemma {:induction false} RowsAreJustified(w: Case, runs: seq<RunInput>)
    requires AllJustified(w)
    ensures AllJustified(AfterAll(w, runs))
  {
    if runs != [] {
      var before, run := AfterAll(w, runs[..|runs| - 1]), runs[|runs| - 1];
      RowsAreJustified(w, runs[..|runs| - 1]);
      var job := run.JobOn(before.rows);
      TraceCutKeepsJustified(before, job.actions, job.fp, job.succeeds, job.crashAfter);
    }
  }

  /** From the empty case on, every row of every history is explained. */
  lemma {:induction false} EveryHistoryIsJustified(runs: seq<RunInput>)
    ensures AllJustified(AfterAll(EMPTY_CASE, runs))
  {
    RowsAreJustified(EMPTY_CASE, runs);
  }

  /** A Done row is the record of an execution under its fingerprint, with nothing of that stage since. */
  lemma {:induction false} DoneRowWasExecuted(runs: seq<RunInput>, s: Stage)
    requires var w := AfterAll(EMPTY_CASE, runs); s in w.rows && w.rows[s].status == Done
    ensures BeganIn(AfterAll(EMPTY_CASE, runs).log, s)
  {
    EveryHistoryIsJustified(runs);
    var w := AfterAll(EMPTY_CASE, runs);
    hide AfterAll;
    var h, f := Of(w.log, s), w.rows[s].fingerprint;
    assert Justified(w, s);
    assert h[|h| - 4] == Began(s, f) && h[|h| - 4] in h;
    var i :| 0 <= i < |w.log| && w.log[i] == Began(s, f);
    assert Begins(w.log[i], s);
  }

  ghost predicate Begins(step: Step, s: Stage) { step.Began? && step.stage == s }

  ghost predicate BeganIn(steps: seq<Step>, s: Stage) {
    exists i :: 0 <= i < |steps| && Begins(steps[i], s)
  }

  lemma BeganInAppend(a: seq<Step>, b: seq<Step>, s: Stage)
    ensures BeganIn(a + b, s) <==> BeganIn(a, s) || BeganIn(b, s)
  {
    assert forall i :: 0 <= i < |a| ==> (a + b)[i] == a[i];
    assert forall i :: 0 <= i < |b| ==> (a + b)[|a| + i] == b[i];
    forall i | 0 <= i < |a + b| && Begins((a + b)[i], s) ensures BeganIn(a, s) || BeganIn(b, s) {
      if i >= |a| {
        assert Begins(b[i - |a|], s);
      }
    }
  }

  lemma BlockBegins(s: Stage, f: string, ok: bool, t: Stage)
    ensures |Block(s, f, ok)| >= 4
    ensures forall j :: 0 <= j < |Block(s, f, ok)| ==> (Begins(Block(s, f, ok)[j], t) <==> j == 2 && s == t)
    ensures BeganIn(Block(s, f, ok), t) <==> s == t
  {
    var block := Block(s, f, ok);
    assert block[2] == Began(s, f);
    assert Begins(block[2], t) <==> s == t;
  }

  /** In a run without failures, exactly the stages planned to run begin. */
  lemma {:induction false} TraceBegins(actions: seq<(Stage, Action)>, fp: map<Stage, string>, succeeds: Stage -> bool,
                                       s: Stage)
    requires NoFailure(actions, succeeds) && forall k :: 0 <= k < |actions| ==> actions[k].0 in fp
    ensures BeganIn(Trace(actions, fp, succeeds), s) <==>
            exists k :: 0 <= k < |actions| && actions[k].0 == s && actions[k].1.Run?
  {
    hide Block, BeganIn;
    if actions == [] {
      NothingBegins(s);
    } else {
      var t, action, rest := actions[0].0, actions[0].1, actions[1..];
      assert actions[0] in actions && forall p :: p in rest ==> p in actions;
      assert forall k :: 1 <= k < |actions| ==> actions[k] == rest[k - 1];
      assert forall k :: 0 <= k < |rest| ==> actions[k + 1] == rest[k];
      TraceBegins(rest, fp, succeeds, s);
      if action.Run? {
        BlockBegins(t, fp[t], true, s);
        BeganInAppend(Block(t, fp[t], true), Trace(rest, fp, succeeds), s);
      }
    }
  }

  lemma NothingBegins(s: Stage)
    ensures !BeganIn([], s)
  {}
}
