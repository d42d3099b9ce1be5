/**
  What boot segmentation returns, by positions in the sorted log.
 */
module BootLaws {
  import opened Wrappers
  import opened MachineInts
  import opened Sequences
  import opened Sorting
  import opened BootCycles

  /** The last event of `s` with one of these ids stands at `i`. */
  ghost predicate IsLast(s: seq<EvtxEvent>, ids: set<nat>, i: int) {
    0 <= i < |s| && s[i].eventId in ids && forall j :: i < j < |s| ==> s[j].eventId !in ids
  }

  ghost predicate HasNone(s: seq<EvtxEvent>, ids: set<nat>) { forall e :: e in s ==> e.eventId !in ids }

  /** The cycle of the boot `boot`, the events `rest` up to the next one and `prior` since the one before. */
  ghost predicate CycleSpells(boot: EvtxEvent, prior: seq<EvtxEvent>, rest: seq<EvtxEvent>, cycle: BootCycle) {
    && cycle.bootTimeNs == boot.ts
    && cycle.events == Filter((e: EvtxEvent) => e.eventId !in {6005, 6006, 6008}, rest)
    && (cycle.shutdownTimeNs.None? <==> HasNone(rest, {6006}))
    && (forall i :: IsLast(rest, {6006}, i) ==> cycle.shutdownTimeNs == Some(rest[i].ts))
    && (cycle.priorShutdownKind == Unknown <==> HasNone(prior, {6006, 6008}))
    && (forall i :: IsLast(prior, {6006, 6008}, i) ==>
          cycle.priorShutdownKind == if prior[i].eventId == 6006 then Clean else Unexpected)
  }

  /** `bs` are the positions of the boot markers in the log. */
  ghost predicate AreBoots(log: seq<EvtxEvent>, bs: seq<nat>) {
    Increasing(bs) && forall p: nat :: p in bs <==> p < |log| && log[p].eventId == 6005
  }

  /** Where the events after the `k`th boot end. */
  function EndOf(log: seq<EvtxEvent>, bs: seq<nat>, k: nat): nat { if k + 1 < |bs| then bs[k + 1] else |log| }

  /** Where the events since the boot before the `k`th one begin. */
  function StartOf(bs: seq<nat>, k: nat): nat { if 0 < k <= |bs| then bs[k - 1] + 1 else 0 }

  /** One cycle a boot marker, with what lies between it and its neighbours. */
  ghost predicate CyclesSpell(log: seq<EvtxEvent>, bs: seq<nat>, cycles: seq<BootCycle>) {
    && |cycles| == |bs|
    && forall k :: 0 <= k < |bs| ==>
         && StartOf(bs, k) <= bs[k] < EndOf(log, bs, k) <= |log|
         && CycleSpells(log[bs[k]], log[StartOf(bs, k)..bs[k]], log[bs[k] + 1..EndOf(log, bs, k)], cycles[k])
  }

  lemma {:induction false} LastShutdownIs(s: seq<EvtxEvent>)
    ensures LastShutdown(s).None? <==> HasNone(s, {6006})
    ensures forall i :: IsLast(s, {6006}, i) ==> LastShutdown(s) == Some(s[i].ts)
  {
    if s != [] {
      var init, last := s[..|s| - 1], s[|s| - 1];
      assert s == init + [last];
      LastShutdownIs(init);
      forall i | IsLast(s, {6006}, i) ensures LastShutdown(s) == Some(s[i].ts) {
        if i < |init| {
          assert last.eventId !in {6006} && IsLast(init, {6006}, i);
        }
      }
    }
  }

  lemma {:induction false} LastKindIs(s: seq<EvtxEvent>)
    ensures LastKind(s) == Unknown <==> HasNone(s, {6006, 6008})
    ensures forall i :: IsLast(s, {6006, 6008}, i) ==> LastKind(s) == if s[i].eventId == 6006 then Clean else Unexpected
  {
    if s != [] {
      var init, last := s[..|s| - 1], s[|s| - 1];
      assert s == init + [last];
      LastKindIs(init);
      forall i | IsLast(s, {6006, 6008}, i)
        ensures LastKind(s) == if s[i].eventId == 6006 then Clean else Unexpected
      {
        if i < |init| {
          assert last.eventId !in {6006, 6008} && IsLast(init, {6006, 6008}, i);
        }
      }
    }
  }

  lemma {:induction false} PlainIs(s: seq<EvtxEvent>)
    ensures Filter(IsPlain, s) == Filter((e: EvtxEvent) => e.eventId !in {6005, 6006, 6008}, s)
  {
    if s != [] {
      PlainIs(s[1..]);
    }
  }

  lemma CycleOfSpells(session: Session, prior: seq<EvtxEvent>)
    ensures CycleSpells(session.boot, prior, session.rest, CycleOf(session, prior))
  {
    LastShutdownIs(session.rest);
    LastKindIs(prior);
    PlainIs(session.rest);
  }

  /** The `k`th boot is that of the `k`th session, and what lies around it is its own. */
  ghost predicate SessionAt(log: seq<EvtxEvent>, c: Chunks, bs: seq<nat>, k: nat) {
    && k < |bs| && k < |c.sessions|
    && StartOf(bs, k) <= bs[k] < EndOf(log, bs, k) <= |log|
    && log[bs[k]] == c.sessions[k].boot
    && log[StartOf(bs, k)..bs[k]] == PriorOf(c, k)
    && log[bs[k] + 1..EndOf(log, bs, k)] == c.sessions[k].rest
  }

  /** The boot markers of a chunked log are those of its sessions. */
  ghost predicate BootsOf(log: seq<EvtxEvent>, c: Chunks, bs: seq<nat>) {
    AreBoots(log, bs) && |bs| == |c.sessions| && forall k: nat :: k < |bs| ==> SessionAt(log, c, bs, k)
  }

  lemma {:induction false} BootsOfChunks(log: seq<EvtxEvent>, c: Chunks) returns (bs: seq<nat>)
    requires IsChunking(log, c)
    ensures BootsOf(log, c, bs)
    decreases |c.sessions|
  {
    if c.sessions == [] {
      bs := [];
      assert log == c.before && NoBoot(log);
      forall p: nat | p < |log| ensures log[p].eventId != 6005 {
        assert log[p] in log;
      }
    } else {
      var n := |c.sessions| - 1;
      var session, d := c.sessions[n], c.(sessions := c.sessions[..n]);
      var front := LastSession(log, c);
      assert c == d.(sessions := d.sessions + [session]);
      var cs := BootsOfChunks(front, d);
      hide IsChunking, SessionAt, AreBoots;
      assert |cs| == n;
      bs := cs + [|front|];
      MoreBoots(front, d, cs, session, log, c);
    }
  }

  /** A chunked log without its last session. */
  lemma LastSession(log: seq<EvtxEvent>, c: Chunks) returns (front: seq<EvtxEvent>)
    requires IsChunking(log, c) && c.sessions != []
    ensures var n := |c.sessions| - 1;
            && IsChunking(front, c.(sessions := c.sessions[..n]))
            && log == front + ([c.sessions[n].boot] + c.sessions[n].rest)
            && IsBoot(c.sessions[n].boot) && NoBoot(c.sessions[n].rest)
            && (n == 0 ==> front == c.before)
  {
    var n := |c.sessions| - 1;
    FlattenLast(c.sessions);
    assert n == 0 ==> Flatten(c.sessions[..n]) == [];
    hide Flatten;
    front := c.before + Flatten(c.sessions[..n]);
    var tail := [c.sessions[n].boot] + c.sessions[n].rest;
    assert log == front + tail;
  }

  lemma MoreMarkers(front: seq<EvtxEvent>, cs: seq<nat>, session: Session, log: seq<EvtxEvent>)
    requires AreBoots(front, cs) && IsBoot(session.boot) && NoBoot(session.rest)
    requires log == front + ([session.boot] + session.rest)
    ensures AreBoots(log, cs + [|front|])
  {
    var bs := cs + [|front|];
    forall p: nat ensures p in bs <==> p < |log| && log[p].eventId == 6005 {
      assert p in bs <==> p in cs || p == |front|;
      if |front| < p < |log| {
        assert log[p] == session.rest[p - |front| - 1] && log[p] in session.rest;
      } else if p < |front| {
        assert log[p] == front[p];
      }
    }
    forall i, j | 0 <= i < j < |bs| ensures bs[i] < bs[j] {
      assert bs[i] == cs[i] && cs[i] in cs;
      assert j < |cs| ==> bs[j] == cs[j];
    }
  }

  lemma MoreBoots(front: seq<EvtxEvent>, d: Chunks, cs: seq<nat>, session: Session, log: seq<EvtxEvent>, c: Chunks)
    requires BootsOf(front, d, cs) && IsBoot(session.boot) && NoBoot(session.rest)
    requires log == front + ([session.boot] + session.rest)
    requires c == d.(sessions := d.sessions + [session])
    requires cs == [] ==> front == d.before
    ensures BootsOf(log, c, cs + [|front|])
  {
    MoreMarkers(front, cs, session, log);
    hide AreBoots, NoBoot, SessionAt;
    var n, bs := |cs|, cs + [|front|];
    forall k: nat | k < |bs| ensures SessionAt(log, c, bs, k) {
      if k < n {
        EarlierBoot(front, d, cs, session, log, c, k);
      } else {
        LastBoot(front, d, cs, session, log, c);
      }
    }
  }

  lemma EarlierBoot(front: seq<EvtxEvent>, d: Chunks, cs: seq<nat>, session: Session, log: seq<EvtxEvent>, c: Chunks,
                    k: nat)
    requires SessionAt(front, d, cs, k)
    requires log == front + ([session.boot] + session.rest)
    requires c == d.(sessions := d.sessions + [session])
    ensures SessionAt(log, c, cs + [|front|], k)
  {
    var bs := cs + [|front|];
    assert bs[k] == cs[k] && (k + 1 < |cs| ==> bs[k + 1] == cs[k + 1]) && (k > 0 ==> bs[k - 1] == cs[k - 1]);
    assert c.sessions[k] == d.sessions[k] && (k > 0 ==> c.sessions[k - 1] == d.sessions[k - 1]);
    assert PriorOf(c, k) == PriorOf(d, k);
    var lo, hi := StartOf(cs, k), EndOf(front, cs, k);
    assert StartOf(bs, k) == lo && EndOf(log, bs, k) == hi;
    hide StartOf, EndOf, PriorOf;
    assert log[cs[k]] == front[cs[k]];
  }

  lemma LastBoot(front: seq<EvtxEvent>, d: Chunks, cs: seq<nat>, session: Session, log: seq<EvtxEvent>, c: Chunks)
    requires |cs| == |d.sessions| && (cs == [] ==> front == d.before)
    requires cs != [] ==> SessionAt(front, d, cs, |cs| - 1)
    requires log == front + ([session.boot] + session.rest)
    requires c == d.(sessions := d.sessions + [session])
    ensures SessionAt(log, c, cs + [|front|], |cs|)
  {
    var bs, k := cs + [|front|], |cs|;
    assert bs[k] == |front| && EndOf(log, bs, k) == |log|;
    assert log[|front|] == session.boot && log[|front| + 1..] == session.rest;
    assert c.sessions[k] == session;
    if k > 0 {
      assert bs[k - 1] == cs[k - 1] && EndOf(front, cs, k - 1) == |front|;
      assert PriorOf(c, k) == d.sessions[k - 1].rest;
    } else {
      assert log[0..|front|] == front;
    }
  }

  /**
    What `SegmentByBootCycle` returns: the events sorted by time, one cycle for each event 6005, with the
    plain events after it, the time of the last 6006 after it, and the kind of the last 6006 or 6008 before it.
   */
  lemma SegmentationSpells(events: seq<EvtxEvent>, cycles: seq<BootCycle>)
    requires IsSegmentation(events, cycles)
    ensures var log := StableSort(ByTime, events);
            && multiset(log) == multiset(events)
            && (forall i, j :: 0 <= i < j < |log| ==> log[i].ts <= log[j].ts)
            && exists bs :: AreBoots(log, bs) && CyclesSpell(log, bs, cycles)
  {
    var log := StableSort(ByTime, events);
    var c :| IsChunking(log, c) && AreCyclesOf(cycles, c);
    StableSortSorted(ByTime, events);
    assert forall i, j :: 0 <= i < j < |log| ==> ByTime(log[i], log[j]);
    var bs := BootsOfChunks(log, c);
    hide StableSort, Flatten, TotalPreorder, CycleOf, CycleSpells, IsChunking, AreBoots;
    forall k: nat | k < |bs|
      ensures StartOf(bs, k) <= bs[k] < EndOf(log, bs, k) <= |log|
      ensures CycleSpells(log[bs[k]], log[StartOf(bs, k)..bs[k]], log[bs[k] + 1..EndOf(log, bs, k)], cycles[k])
    {
      assert SessionAt(log, c, bs, k);
      CycleOfSpells(c.sessions[k], PriorOf(c, k));
    }
    assert CyclesSpell(log, bs, cycles);
  }
}
