/**
  Boot-cycle segmentation: partition a log by the markers 6005 (boot), 6006 (clean
  shutdown) and 6008 (unexpected shutdown).
 */
module BootCycles {
  import opened Wrappers
  import opened MachineInts
  import opened Sequences
  import opened Sorting

  const EID_BOOT: nat := 6005
  const EID_SHUTDOWN: nat := 6006
  const EID_UNEXPECTED_SHUTDOWN: nat := 6008

  datatype EvtxEvent = EvtxEvent(eventId: nat, ts: i64, body: string)

  datatype ShutdownKind = Clean | Unexpected | Unknown

  datatype BootCycle = BootCycle(
    bootTimeNs: i64,
    shutdownTimeNs: Option<i64>,
    priorShutdownKind: ShutdownKind,
    events: seq<EvtxEvent>)

  predicate ByTime(a: EvtxEvent, b: EvtxEvent) { a.ts <= b.ts }

  predicate IsBoot(e: EvtxEvent) { e.eventId == EID_BOOT }

  predicate IsPlain(e: EvtxEvent) {
    e.eventId != EID_BOOT && e.eventId != EID_SHUTDOWN && e.eventId != EID_UNEXPECTED_SHUTDOWN
  }

  // ---- what a segmentation is

  /** A boot marker and everything up to the next one. */
  datatype Session = Session(boot: EvtxEvent, rest: seq<EvtxEvent>)

  /** The log as the events before the first boot and the sessions after it. */
  datatype Chunks = Chunks(before: seq<EvtxEvent>, sessions: seq<Session>)

  function Flatten(sessions: seq<Session>): seq<EvtxEvent> {
    if sessions == [] then [] else [sessions[0].boot] + sessions[0].rest + Flatten(sessions[1..])
  }

  ghost predicate NoBoot(s: seq<EvtxEvent>) { forall e :: e in s ==> !IsBoot(e) }

  /** The chunks put together are the log, and they are cut exactly at the boot markers. */
  ghost predicate IsChunking(log: seq<EvtxEvent>, c: Chunks) {
    && c.before + Flatten(c.sessions) == log
    && NoBoot(c.before)
    && forall k :: 0 <= k < |c.sessions| ==> IsBoot(c.sessions[k].boot) && NoBoot(c.sessions[k].rest)
  }

  /** The time of the last clean shutdown marker. */
  function LastShutdown(s: seq<EvtxEvent>): Option<i64> {
    if s == [] then None
    else if s[|s| - 1].eventId == EID_SHUTDOWN then Some(s[|s| - 1].ts)
    else LastShutdown(s[..|s| - 1])
  }

  /** The kind of the last shutdown marker, clean or not. */
  function LastKind(s: seq<EvtxEvent>): ShutdownKind {
    if s == [] then Unknown
    else if s[|s| - 1].eventId == EID_SHUTDOWN then Clean
    else if s[|s| - 1].eventId == EID_UNEXPECTED_SHUTDOWN then Unexpected
    else LastKind(s[..|s| - 1])
  }

  function CycleOf(session: Session, prior: seq<EvtxEvent>): BootCycle {
    BootCycle(session.boot.ts, LastShutdown(session.rest), LastKind(prior), Filter(IsPlain, session.rest))
  }

  /** What precedes session `k`: the previous session, or the events before the first boot. */
  function PriorOf(c: Chunks, k: nat): seq<EvtxEvent>
    requires k < |c.sessions|
  {
    if k == 0 then c.before else c.sessions[k - 1].rest
  }

  /** One cycle a session. */
  ghost predicate AreCyclesOf(cycles: seq<BootCycle>, c: Chunks) {
    && |cycles| == |c.sessions|
    && forall k :: 0 <= k < |cycles| ==> cycles[k] == CycleOf(c.sessions[k], PriorOf(c, k))
  }

  /** `cycles` are those of the events sorted by time, ties in their order. */
  ghost predicate IsSegmentation(events: seq<EvtxEvent>, cycles: seq<BootCycle>) {
    exists c :: IsChunking(StableSort(ByTime, events), c) && AreCyclesOf(cycles, c)
  }

  // ---- the segmentation

  lemma {:induction false} FlattenAppend(a: seq<Session>, b: seq<Session>)
    ensures Flatten(a + b) == Flatten(a) + Flatten(b)
  {
    if a == [] {
      assert a + b == b;
    } else {
      FlattenAppend(a[1..], b);
      assert (a + b)[1..] == a[1..] + b;
    }
  }

  lemma {:induction false} FlattenLast(sessions: seq<Session>)
    requires sessions != []
    ensures var n := |sessions| - 1;
            Flatten(sessions) == Flatten(sessions[..n]) + [sessions[n].boot] + sessions[n].rest
  {
    hide Flatten;
    var n := |sessions| - 1;
    assert sessions == sessions[..n] + [sessions[n]];
    FlattenAppend(sessions[..n], [sessions[n]]);
    FlattenOne(sessions[n]);
  }

  lemma FlattenOne(s: Session)
    ensures Flatten([s]) == [s.boot] + s.rest
  {
    var one := [s];
    assert one[1..] == [];
    assert Flatten(one[1..]) == [];
  }

  /** The chunks of a log extended by one event. */
  function Extended(c: Chunks, e: EvtxEvent): Chunks {
    var n := |c.sessions|;
    if IsBoot(e) then c.(sessions := c.sessions + [Session(e, [])])
    else if n == 0 then c.(before := c.before + [e])
    else c.(sessions := c.sessions[n - 1 := Session(c.sessions[n - 1].boot, c.sessions[n - 1].rest + [e])])
  }

  lemma ExtendedIsChunking(log: seq<EvtxEvent>, c: Chunks, e: EvtxEvent)
    requires IsChunking(log, c)
    ensures IsChunking(log + [e], Extended(c, e))
  {
    var n, d := |c.sessions|, Extended(c, e);
    if IsBoot(e) {
      FlattenLast(d.sessions);
      assert d.sessions[..n] == c.sessions;
    } else if n > 0 {
      FlattenLast(c.sessions);
      FlattenLast(d.sessions);
      assert d.sessions[..n - 1] == c.sessions[..n - 1];
    }
  }

  /** The open cycle of a partial log, with the kind of the last shutdown since its boot. */
  ghost predicate IsOpen(c: Chunks, current: Option<BootCycle>, lastKind: ShutdownKind) {
    var n := |c.sessions|;
    if n == 0 then current.None? && lastKind == LastKind(c.before)
    else current == Some(CycleOf(c.sessions[n - 1], PriorOf(c, n - 1))) && lastKind == LastKind(c.sessions[n - 1].rest)
  }

  /** Moves the open cycle, if any, to the closed ones. */
  function WithCurrent(cycles: seq<BootCycle>, current: Option<BootCycle>): seq<BootCycle> {
    if current.Some? then cycles + [current.value] else cycles
  }

  /** The closed cycles of a partial log: all but the last session. */
  ghost predicate AreClosed(c: Chunks, cycles: seq<BootCycle>) {
    && |cycles| == (if c.sessions == [] then 0 else |c.sessions| - 1)
    && forall k :: 0 <= k < |cycles| ==> cycles[k] == CycleOf(c.sessions[k], PriorOf(c, k))
  }

  lemma CycleExtends(session: Session, prior: seq<EvtxEvent>, e: EvtxEvent)
    ensures var longer := Session(session.boot, session.rest + [e]);
            CycleOf(longer, prior) == CycleOf(session, prior).(
              shutdownTimeNs := if e.eventId == EID_SHUTDOWN then Some(e.ts) else LastShutdown(session.rest),
              events := Filter(IsPlain, session.rest) + if IsPlain(e) then [e] else [])
  {
    FilterAppend(IsPlain, session.rest, [e]);
    assert (session.rest + [e])[..|session.rest|] == session.rest;
  }

  lemma KindExtends(s: seq<EvtxEvent>, e: EvtxEvent)
    ensures LastKind(s + [e]) == if e.eventId == EID_SHUTDOWN then Clean
                                 else if e.eventId == EID_UNEXPECTED_SHUTDOWN then Unexpected else LastKind(s)
  {
    assert (s + [e])[..|s|] == s;
  }

  /** The state of the segmentation after the events of `log`. */
  ghost predicate Segmenting(log: seq<EvtxEvent>, c: Chunks, current: Option<BootCycle>, lastKind: ShutdownKind,
                             cycles: seq<BootCycle>)
  {
    IsChunking(log, c) && IsOpen(c, current, lastKind) && AreClosed(c, cycles)
  }

  /** A shutdown marker or a plain event. */
  method WithinSession(current: Option<BootCycle>, lastShutdownKind: ShutdownKind, ev: EvtxEvent)
    returns (next: Option<BootCycle>, kind: ShutdownKind)
    requires !IsBoot(ev)
    ensures next == CurrentAfter(current, ev) && kind == KindAfter(lastShutdownKind, ev)
  {
    next, kind := current, lastShutdownKind;
    if ev.eventId == EID_SHUTDOWN {
      if current.Some? {
        next := Some(current.value.(shutdownTimeNs := Some(ev.ts)));
      }
      kind := Clean;
    } else if ev.eventId == EID_UNEXPECTED_SHUTDOWN {
      kind := Unexpected;
    } else if current.Some? {
      next := Some(current.value.(events := current.value.events + [ev]));
    }
  }

  method SegmentSorted(sorted: seq<EvtxEvent>) returns (cycles: seq<BootCycle>, ghost c: Chunks)
    ensures IsChunking(sorted, c) && AreCyclesOf(cycles, c)
  {
    NothingChunked();
    hide Segmenting, IsChunking, AreCyclesOf, Extended, CurrentAfter, KindAfter, WithCurrent;
    cycles, c := [], Chunks([], []);
    var current: Option<BootCycle> := None;
    var lastShutdownKind := Unknown;
    ghost var log: seq<EvtxEvent> := [];
    for i := 0 to |sorted|
      invariant log == sorted[..i]
      invariant Segmenting(log, c, current, lastShutdownKind, cycles)
    {
      var ev := sorted[i];
      if ev.eventId == EID_BOOT {
        StepBoot(log, c, current, lastShutdownKind, cycles, ev);
        cycles := WithCurrent(cycles, current);
        current := Some(BootCycle(ev.ts, None, lastShutdownKind, []));
        lastShutdownKind := Unknown;
      } else {
        StepWithinSession(log, c, current, lastShutdownKind, cycles, ev);
        current, lastShutdownKind := WithinSession(current, lastShutdownKind, ev);
      }
      c := Extended(c, ev);
      log := log + [ev];
    }
    assert log == sorted;
    SegmentingEnds(log, c, current, lastShutdownKind, cycles);
    cycles := WithCurrent(cycles, current);
  }

  /** Sorts the log by time, keeping the order of ties, and cuts it at the boot markers. */
  method SegmentByBootCycle(events: seq<EvtxEvent>) returns (cycles: seq<BootCycle>)
    ensures IsSegmentation(events, cycles)
  {
    ghost var c;
    if events == [] {
      NothingChunked();
      assert StableSort(ByTime, events) == [];
      assert IsChunking([], Chunks([], [])) && AreCyclesOf([], Chunks([], []));
      return [];
    }
    cycles, c := SegmentSorted(StableSort(ByTime, events));
  }

  lemma NothingChunked()
    ensures var c := Chunks([], []);
            Segmenting([], c, None, Unknown, []) && IsChunking([], c) && AreCyclesOf([], c)
  {}

  function CurrentAfter(current: Option<BootCycle>, e: EvtxEvent): Option<BootCycle> {
    if current.None? then None
    else if e.eventId == EID_SHUTDOWN then Some(current.value.(shutdownTimeNs := Some(e.ts)))
    else if IsPlain(e) then Some(current.value.(events := current.value.events + [e]))
    else current
  }

  function KindAfter(lastKind: ShutdownKind, e: EvtxEvent): ShutdownKind {
    if e.eventId == EID_SHUTDOWN then Clean
    else if e.eventId == EID_UNEXPECTED_SHUTDOWN then Unexpected else lastKind
  }

  lemma StaysOpen(c: Chunks, current: Option<BootCycle>, lastKind: ShutdownKind, e: EvtxEvent)
    requires IsOpen(c, current, lastKind) && !IsBoot(e)
    ensures IsOpen(Extended(c, e), CurrentAfter(current, e), KindAfter(lastKind, e))
  {
    hide Filter, LastShutdown, LastKind;
    var n := |c.sessions|;
    if n == 0 {
      KindExtends(c.before, e);
    } else {
      CycleExtends(c.sessions[n - 1], PriorOf(c, n - 1), e);
      KindExtends(c.sessions[n - 1].rest, e);
      var plain := Filter(IsPlain, c.sessions[n - 1].rest);
      assert plain + [] == plain;
      assert PriorOf(Extended(c, e), n - 1) == PriorOf(c, n - 1);
    }
  }

  lemma StaysClosed(c: Chunks, cycles: seq<BootCycle>, e: EvtxEvent)
    requires AreClosed(c, cycles) && !IsBoot(e)
    ensures AreClosed(Extended(c, e), cycles)
  {
    hide CycleOf;
    var d := Extended(c, e);
    forall k | 0 <= k < |cycles| ensures d.sessions[k] == c.sessions[k] && PriorOf(d, k) == PriorOf(c, k) {}
  }

  /** What one non-boot event does to the open cycle. */
  lemma StepWithinSession(log: seq<EvtxEvent>, c: Chunks, current: Option<BootCycle>, lastKind: ShutdownKind,
                          cycles: seq<BootCycle>, e: EvtxEvent)
    requires Segmenting(log, c, current, lastKind, cycles) && !IsBoot(e)
    ensures Segmenting(log + [e], Extended(c, e), CurrentAfter(current, e), KindAfter(lastKind, e), cycles)
  {
    hide IsChunking, IsOpen, AreClosed, Extended, CurrentAfter, KindAfter;
    ExtendedIsChunking(log, c, e);
    StaysOpen(c, current, lastKind, e);
    StaysClosed(c, cycles, e);
  }

  lemma NewCycle(e: EvtxEvent, prior: seq<EvtxEvent>)
    ensures CycleOf(Session(e, []), prior) == BootCycle(e.ts, None, LastKind(prior), [])
  {}

  lemma BootCloses(c: Chunks, current: Option<BootCycle>, lastKind: ShutdownKind, cycles: seq<BootCycle>, e: EvtxEvent)
    requires IsOpen(c, current, lastKind) && AreClosed(c, cycles) && IsBoot(e)
    ensures AreClosed(Extended(c, e), WithCurrent(cycles, current))
  {
    hide CycleOf, LastKind;
    AllClosed(c, current, lastKind, cycles);
    var d := Extended(c, e);
    forall k | 0 <= k < |c.sessions| ensures d.sessions[k] == c.sessions[k] && PriorOf(d, k) == PriorOf(c, k) {}
  }

  lemma BootOpens(c: Chunks, current: Option<BootCycle>, lastKind: ShutdownKind, e: EvtxEvent)
    requires IsOpen(c, current, lastKind) && IsBoot(e)
    ensures IsOpen(Extended(c, e), Some(BootCycle(e.ts, None, lastKind, [])), Unknown)
  {
    NewCycle(e, PriorOf(Extended(c, e), |c.sessions|));
    hide CycleOf, LastKind;
  }

  /** What a boot marker does: it closes the open cycle and opens the next. */
  lemma StepBoot(log: seq<EvtxEvent>, c: Chunks, current: Option<BootCycle>, lastKind: ShutdownKind,
                 cycles: seq<BootCycle>, e: EvtxEvent)
    requires Segmenting(log, c, current, lastKind, cycles) && IsBoot(e)
    ensures Segmenting(log + [e], Extended(c, e), Some(BootCycle(e.ts, None, lastKind, [])), Unknown,
                       WithCurrent(cycles, current))
  {
    hide IsChunking, IsOpen, AreClosed, Extended;
    ExtendedIsChunking(log, c, e);
    BootCloses(c, current, lastKind, cycles, e);
    BootOpens(c, current, lastKind, e);
  }

  lemma AllClosed(c: Chunks, current: Option<BootCycle>, lastKind: ShutdownKind, cycles: seq<BootCycle>)
    requires IsOpen(c, current, lastKind) && AreClosed(c, cycles)
    ensures AreCyclesOf(WithCurrent(cycles, current), c)
  {
    hide CycleOf, LastKind;
  }

  lemma SegmentingEnds(log: seq<EvtxEvent>, c: Chunks, current: Option<BootCycle>, lastKind: ShutdownKind,
                       cycles: seq<BootCycle>)
    requires Segmenting(log, c, current, lastKind, cycles)
    ensures IsChunking(log, c) && AreCyclesOf(WithCurrent(cycles, current), c)
  {
    AllClosed(c, current, lastKind, cycles);
  }

  // ---- laws

  /** A log has one chunking, so the segmentation is determined by the log. */
  lemma {:induction false} ChunkingIsUnique(log: seq<EvtxEvent>, c: Chunks, d: Chunks)
    requires IsChunking(log, c) && IsChunking(log, d)
    ensures c == d
    decreases |c.sessions|
  {
    BootFreePrefixes(c.before, Flatten(c.sessions), d.before, Flatten(d.sessions));
    if c.sessions != [] && d.sessions != [] {
      var x, y := c.sessions[0], d.sessions[0];
      assert x.boot == Flatten(c.sessions)[0] == y.boot;
      assert x.rest + Flatten(c.sessions[1..]) == Flatten(c.sessions)[1..];
      assert y.rest + Flatten(d.sessions[1..]) == Flatten(d.sessions)[1..];
      ChunkingIsUnique(Flatten(c.sessions)[1..], Chunks(x.rest, c.sessions[1..]), Chunks(y.rest, d.sessions[1..]));
      assert c.sessions == [x] + c.sessions[1..] && d.sessions == [y] + d.sessions[1..];
    }
  }

  lemma BootFreePrefixes(a: seq<EvtxEvent>, s: seq<EvtxEvent>, b: seq<EvtxEvent>, t: seq<EvtxEvent>)
    requires a + s == b + t && NoBoot(a) && NoBoot(b)
    requires (s != [] ==> IsBoot(s[0])) && (t != [] ==> IsBoot(t[0]))
    ensures a == b && s == t
  {
    var log := a + s;
    assert forall k :: 0 <= k < |a| ==> log[k] == a[k] && a[k] in a;
    assert forall k :: 0 <= k < |b| ==> log[k] == b[k] && b[k] in b;
    assert |a| < |log| ==> log[|a|] == s[0];
    assert |b| < |log| ==> log[|b|] == t[0];
    assert |a| == |b|;
    assert a == log[..|a|] == b && s == log[|a|..] == t;
  }

  function AllEvents(cycles: seq<BootCycle>): seq<EvtxEvent> {
    if cycles == [] then [] else AllEvents(cycles[..|cycles| - 1]) + cycles[|cycles| - 1].events
  }

  lemma NotPlain(boot: EvtxEvent)
    requires IsBoot(boot)
    ensures Filter(IsPlain, [boot]) == []
  {}

  lemma PlainOfSession(log: seq<EvtxEvent>, s: Session)
    requires IsBoot(s.boot)
    ensures Filter(IsPlain, log + [s.boot] + s.rest) == Filter(IsPlain, log) + Filter(IsPlain, s.rest)
  {
    NotPlain(s.boot);
    FilterAppend(IsPlain, log + [s.boot], s.rest);
    FilterAppend(IsPlain, log, [s.boot]);
    hide Filter;
    assert Filter(IsPlain, log) + [] == Filter(IsPlain, log);
  }

  lemma {:induction false} EventsOfSessions(sessions: seq<Session>, cycles: seq<BootCycle>)
    requires |cycles| == |sessions|
    requires forall k :: 0 <= k < |cycles| ==>
               IsBoot(sessions[k].boot) && cycles[k].events == Filter(IsPlain, sessions[k].rest)
    ensures AllEvents(cycles) == Filter(IsPlain, Flatten(sessions))
  {
    if sessions == [] {
      assert Filter(IsPlain, Flatten([])) == [];
    } else {
      hide Filter, Flatten;
      var n := |sessions| - 1;
      EventsOfSessions(sessions[..n], cycles[..n]);
      FlattenLast(sessions);
      PlainOfSession(Flatten(sessions[..n]), sessions[n]);
    }
  }

  /**
    The cycles partition the plain events: those before the first boot are dropped, all others
    appear exactly once and in order. Nothing is dropped exactly when no plain event comes first.
   */
  lemma CyclesPartitionEvents(log: seq<EvtxEvent>, c: Chunks, cycles: seq<BootCycle>)
    requires IsChunking(log, c) && AreCyclesOf(cycles, c)
    ensures Filter(IsPlain, log) == Filter(IsPlain, c.before) + AllEvents(cycles)
    ensures AllEvents(cycles) == Filter(IsPlain, log) <==> forall e :: e in c.before ==> !IsPlain(e)
    ensures |cycles| == |Filter(IsBoot, log)|
  {
    FilterAppend(IsPlain, c.before, Flatten(c.sessions));
    EventsOfSessions(c.sessions, cycles);
    var dropped := Filter(IsPlain, c.before);
    assert |dropped| == 0 <==> forall e :: e in c.before ==> !IsPlain(e) by {
      if |dropped| > 0 {
        assert dropped[0] in dropped;
      }
    }
    assert |dropped| == 0 ==> dropped + AllEvents(cycles) == AllEvents(cycles);
    FilterAppend(IsBoot, c.before, Flatten(c.sessions));
    BootsOfSessions(c.sessions);
    NoneFiltered(c.before);
  }

  lemma {:induction false} NoneFiltered(s: seq<EvtxEvent>)
    requires NoBoot(s)
    ensures Filter(IsBoot, s) == []
  {
    if s != [] {
      NoneFiltered(s[1..]);
      assert s[0] in s;
    }
  }

  lemma {:induction false} BootsOfSessions(sessions: seq<Session>)
    requires forall k :: 0 <= k < |sessions| ==> IsBoot(sessions[k].boot) && NoBoot(sessions[k].rest)
    ensures |Filter(IsBoot, Flatten(sessions))| == |sessions|
  {
    if sessions != [] {
      BootsOfSessions(sessions[1..]);
      FilterAppend(IsBoot, [sessions[0].boot] + sessions[0].rest, Flatten(sessions[1..]));
      FilterAppend(IsBoot, [sessions[0].boot], sessions[0].rest);
      NoneFiltered(sessions[0].rest);
    }
  }

  lemma ShutdownIsMarker(s: seq<EvtxEvent>)
    ensures LastShutdown(s).Some? <==> exists e :: e in s && e.eventId == EID_SHUTDOWN
    ensures LastShutdown(s).Some? ==> exists e :: e in s && e.eventId == EID_SHUTDOWN && e.ts == LastShutdown(s).value
    ensures LastKind(s) == Unknown <==>
            forall e :: e in s ==> e.eventId != EID_SHUTDOWN && e.eventId != EID_UNEXPECTED_SHUTDOWN
    ensures LastKind(s) == Clean ==> LastShutdown(s).Some?
  {
    if s != [] {
      var init := s[..|s| - 1];
      ShutdownIsMarker(init);
      assert s == init + [s[|s| - 1]];
    }
  }

  /** A clean prior shutdown has a recorded time, and an unknown one has no marker at all. */
  lemma PriorKindMatchesShutdown(c: Chunks, cycles: seq<BootCycle>, k: nat)
    requires AreCyclesOf(cycles, c) && 0 < k < |cycles|
    ensures cycles[k].priorShutdownKind == Clean ==> cycles[k - 1].shutdownTimeNs.Some?
    ensures cycles[k].priorShutdownKind == Unknown ==> cycles[k - 1].shutdownTimeNs.None?
  {
    ShutdownIsMarker(c.sessions[k - 1].rest);
  }

  lemma SessionInLog(log: seq<EvtxEvent>, c: Chunks, k: nat) returns (at: nat)
    requires IsChunking(log, c) && k < |c.sessions|
    ensures at + |c.sessions[k].rest| < |log| && log[at] == c.sessions[k].boot
    ensures log[at + 1..at + 1 + |c.sessions[k].rest|] == c.sessions[k].rest
    ensures k + 1 < |c.sessions| ==>
              at + 1 + |c.sessions[k].rest| < |log| && log[at + 1 + |c.sessions[k].rest|] == c.sessions[k + 1].boot
  {
    var front, back := c.sessions[..k], c.sessions[k..];
    assert c.sessions == front + back;
    FlattenAppend(front, back);
    at := |c.before| + |Flatten(front)|;
    var tail := [back[0].boot] + back[0].rest + Flatten(back[1..]);
    assert log == (c.before + Flatten(front)) + tail;
    assert log[at..] == tail;
    if k + 1 < |c.sessions| {
      assert Flatten(back[1..])[0] == c.sessions[k + 1].boot;
    }
    hide Flatten;
    assert tail[1..1 + |back[0].rest|] == back[0].rest;
  }

  /** Every event and every shutdown lies between its boot and the next. */
  lemma CyclesAreOrdered(log: seq<EvtxEvent>, c: Chunks, cycles: seq<BootCycle>, k: nat)
    requires IsChunking(log, c) && AreCyclesOf(cycles, c) && Sorted(ByTime, log) && k < |cycles|
    ensures forall e :: e in cycles[k].events ==>
              cycles[k].bootTimeNs <= e.ts && (k + 1 < |cycles| ==> e.ts <= cycles[k + 1].bootTimeNs)
    ensures cycles[k].shutdownTimeNs.Some? ==>
              && cycles[k].bootTimeNs <= cycles[k].shutdownTimeNs.value
              && (k + 1 < |cycles| ==> cycles[k].shutdownTimeNs.value <= cycles[k + 1].bootTimeNs)
  {
    var rest := c.sessions[k].rest;
    var at := SessionInLog(log, c, k);
    forall e | e in rest
      ensures cycles[k].bootTimeNs <= e.ts && (k + 1 < |cycles| ==> e.ts <= cycles[k + 1].bootTimeNs)
    {
      var i :| 0 <= i < |rest| && rest[i] == e;
      assert log[at + 1 + i] == e;
      assert ByTime(log[at], log[at + 1 + i]);
      assert k + 1 < |cycles| ==> ByTime(log[at + 1 + i], log[at + 1 + |rest|]);
    }
    ShutdownIsMarker(rest);
  }

  /**
    What the segmentation of any events is good for: one cycle a boot marker, each event of a cycle is
    one of the plain events given, and events and shutdown lie between the boots.
   */
  lemma SegmentationIsOrdered(events: seq<EvtxEvent>, cycles: seq<BootCycle>, k: nat)
    requires IsSegmentation(events, cycles) && k < |cycles|
    ensures |cycles| == |Filter(IsBoot, StableSort(ByTime, events))|
    ensures k + 1 < |cycles| ==> cycles[k].bootTimeNs <= cycles[k + 1].bootTimeNs
    ensures forall e :: e in cycles[k].events ==>
              && e in events && IsPlain(e)
              && cycles[k].bootTimeNs <= e.ts && (k + 1 < |cycles| ==> e.ts <= cycles[k + 1].bootTimeNs)
    ensures cycles[k].shutdownTimeNs.Some? ==>
              && cycles[k].bootTimeNs <= cycles[k].shutdownTimeNs.value
              && (k + 1 < |cycles| ==> cycles[k].shutdownTimeNs.value <= cycles[k + 1].bootTimeNs)
    ensures k > 0 && cycles[k].priorShutdownKind == Clean ==> cycles[k - 1].shutdownTimeNs.Some?
  {
    var log := StableSort(ByTime, events);
    var c :| IsChunking(log, c) && AreCyclesOf(cycles, c);
    StableSortSorted(ByTime, events);
    SameElements(log, events);
    hide StableSort, Flatten, LastShutdown, LastKind, TotalPreorder;
    CyclesAreOrdered(log, c, cycles, k);
    CyclesPartitionEvents(log, c, cycles);
    SessionElements(log, c, k);
    if k > 0 {
      PriorKindMatchesShutdown(c, cycles, k);
    }
  }

  /** The events of a session are events of the log, and the boots come in order. */
  lemma SessionElements(log: seq<EvtxEvent>, c: Chunks, k: nat)
    requires IsChunking(log, c) && Sorted(ByTime, log) && k < |c.sessions|
    ensures forall e :: e in c.sessions[k].rest ==> e in log
    ensures k + 1 < |c.sessions| ==> c.sessions[k].boot.ts <= c.sessions[k + 1].boot.ts
  {
    var at := SessionInLog(log, c, k);
    var rest := c.sessions[k].rest;
    forall e | e in rest ensures e in log {
      var i :| 0 <= i < |rest| && rest[i] == e;
      assert log[at + 1..at + 1 + |rest|][i] == log[at + 1 + i];
    }
    if k + 1 < |c.sessions| {
      assert ByTime(log[at], log[at + 1 + |rest|]);
    }
  }

  /** The length of a closed cycle in whole seconds; `i64` subtraction must not overflow. */
  method DurationSecs(cycle: BootCycle) returns (r: Option<int>)
    requires cycle.shutdownTimeNs.Some? ==> I64_MIN <= cycle.shutdownTimeNs.value - cycle.bootTimeNs <= I64_MAX
    ensures r.Some? <==> cycle.shutdownTimeNs.Some?
    ensures r.Some? ==>
              r.value * NANOS <= Abs(cycle.shutdownTimeNs.value - cycle.bootTimeNs) < (r.value + 1) * NANOS
  {
    if cycle.shutdownTimeNs.None? {
      return None;
    }
    var delta: i64 := cycle.shutdownTimeNs.value - cycle.bootTimeNs;
    r := Some(Abs(delta) / NANOS);
  }
}
