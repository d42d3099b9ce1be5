/**
  The single-event timestomp scorer: ordering signals, the sub-second contrast, benign
  modifiers and the resulting grade.
 */
module Timestomp {
  import opened Wrappers
  import opened MachineInts
  import opened Sequences

  /** An event with its metadata stamps already parsed; `None` is absent or unparseable. */
  datatype Event = Event(
    isFileCreate: bool,
    ts: i64,
    fnCreated: Option<i64>,
    siCreated: Option<i64>,
    siModified: Option<i64>,
    siAccessed: Option<i64>,
    highFpPath: bool)

  datatype Severity = Info | Low | Medium {
    function Rank(): nat { match this case Info => 0 case Low => 1 case Medium => 2 }
  }

  datatype Signal = CreatedBeforeFn | ModifiedBeforeFn | SubSecondZeroed

  datatype Modifier = CopyPattern | VolumeMove | HighFpPath

  datatype Verdict = Verdict(severity: Severity, signals: seq<Signal>, modifiers: seq<Modifier>)

  predicate IsWholeSecond(ns: int) { ns % NANOS == 0 }

  /** The birth time in `$STANDARD_INFORMATION`, or the event's own stamp. */
  function Born(e: Event): i64 { if e.siCreated.Some? then e.siCreated.value else e.ts }

  // ---- signals and modifiers

  /** A whole-second value next to a `$FILE_NAME` time that keeps its precision. */
  predicate Contrast(e: Event)
    requires e.fnCreated.Some?
  {
    && !IsWholeSecond(e.fnCreated.value)
    && (IsWholeSecond(Born(e)) || (e.siModified.Some? && IsWholeSecond(e.siModified.value)))
  }

  /** `t` precedes the `$FILE_NAME` birth by more than the tolerance or, under the contrast, at all. */
  predicate Precedes(e: Event, tolerance: i64, t: i64)
    requires e.fnCreated.Some?
  {
    t < SatI64(e.fnCreated.value - tolerance) || (Contrast(e) && t < e.fnCreated.value)
  }

  predicate Stomped(e: Event, tolerance: i64) {
    && e.isFileCreate && e.fnCreated.Some?
    && (Precedes(e, tolerance, Born(e)) || (e.siModified.Some? && Precedes(e, tolerance, e.siModified.value)))
  }

  predicate IsBenign(e: Event, m: Modifier) {
    match m
    case CopyPattern => e.siModified.Some? && Born(e) > e.siModified.value
    case VolumeMove => e.siModified.Some? && e.siAccessed.Some?
                       && e.siAccessed.value > Born(e) && e.siAccessed.value > e.siModified.value
    case HighFpPath => e.highFpPath
  }

  /** Any benign pattern caps the grade; otherwise the contrast outranks a modified-time anomaly. */
  function Grade(e: Event, tolerance: i64): Severity
    requires e.fnCreated.Some?
  {
    if exists m: Modifier :: IsBenign(e, m) then Info
    else if Contrast(e) then Medium
    else if e.siModified.Some? && Precedes(e, tolerance, e.siModified.value) then Low
    else Info
  }

  /** The signals as reported, in this order. */
  const ALL_SIGNALS: seq<Signal> := [CreatedBeforeFn, ModifiedBeforeFn, SubSecondZeroed]
  const ALL_MODIFIERS: seq<Modifier> := [CopyPattern, VolumeMove, HighFpPath]

  predicate IsGiven(e: Event, tolerance: i64, s: Signal) {
    e.fnCreated.Some? && match s
                         case CreatedBeforeFn => Precedes(e, tolerance, Born(e))
                         case ModifiedBeforeFn => e.siModified.Some? && Precedes(e, tolerance, e.siModified.value)
                         case SubSecondZeroed => Contrast(e)
  }

  method DetectTimestomp(e: Event, tolerance: i64) returns (r: Option<Verdict>)
    ensures r.Some? <==> Stomped(e, tolerance)
    ensures r.Some? ==> r.value.severity == Grade(e, tolerance)
    ensures r.Some? ==>
              && r.value.signals == Filter((s: Signal) => IsGiven(e, tolerance, s), ALL_SIGNALS)
              && r.value.modifiers == Filter((m: Modifier) => IsBenign(e, m), ALL_MODIFIERS)
  {
    hide Filter;
    if !e.isFileCreate || e.fnCreated.None? {
      return None;
    }
    var fnCreated, born := e.fnCreated.value, Born(e);
    var threshold := SatI64(fnCreated - tolerance);
    var s3 := !IsWholeSecond(fnCreated)
              && (IsWholeSecond(born) || (e.siModified.Some? && IsWholeSecond(e.siModified.value)));
    var s1 := born < threshold || (s3 && born < fnCreated);
    var s2 := (e.siModified.Some? && e.siModified.value < threshold)
              || (s3 && e.siModified.Some? && e.siModified.value < fnCreated);
    if !s1 && !s2 {
      return None;
    }
    var severity := if s3 then Medium else if s2 then Low else Info;
    var signals := SignalsOf(e, tolerance, s1, s2, s3);
    var modifiers := ModifiersOf(e);
    if modifiers != [] {
      severity := Info;
    }
    r := Some(Verdict(severity, signals, modifiers));
  }

  method SignalsOf(ghost e: Event, ghost tolerance: i64, s1: bool, s2: bool, s3: bool) returns (signals: seq<Signal>)
    requires e.fnCreated.Some?
    requires s1 == IsGiven(e, tolerance, CreatedBeforeFn) && s2 == IsGiven(e, tolerance, ModifiedBeforeFn)
    requires s3 == IsGiven(e, tolerance, SubSecondZeroed)
    ensures signals == Filter((s: Signal) => IsGiven(e, tolerance, s), ALL_SIGNALS)
  {
    hide IsGiven, Filter;
    signals := [];
    if s1 { signals := signals + [CreatedBeforeFn]; }
    if s2 { signals := signals + [ModifiedBeforeFn]; }
    if s3 { signals := signals + [SubSecondZeroed]; }
    FilterThree((s: Signal) => IsGiven(e, tolerance, s), CreatedBeforeFn, ModifiedBeforeFn, SubSecondZeroed);
  }

  method ModifiersOf(e: Event) returns (modifiers: seq<Modifier>)
    ensures modifiers == Filter((m: Modifier) => IsBenign(e, m), ALL_MODIFIERS)
    ensures modifiers != [] <==> exists m: Modifier :: IsBenign(e, m)
  {
    hide Filter;
    modifiers := [];
    var born := Born(e);
    if e.siModified.Some? && born > e.siModified.value { modifiers := modifiers + [CopyPattern]; }
    if e.siModified.Some? && e.siAccessed.Some?
       && e.siAccessed.value > born && e.siAccessed.value > e.siModified.value {
      modifiers := modifiers + [VolumeMove];
    }
    if e.highFpPath { modifiers := modifiers + [HighFpPath]; }
    FilterThree((m: Modifier) => IsBenign(e, m), CopyPattern, VolumeMove, HighFpPath);
    forall m: Modifier | IsBenign(e, m) ensures modifiers != [] {
      assert m == CopyPattern || m == VolumeMove || m == HighFpPath;
    }
  }

  lemma FilterOne<T>(p: T -> bool, x: T)
    ensures Filter(p, [x]) == if p(x) then [x] else []
  {}

  lemma FilterThree<T>(p: T -> bool, a: T, b: T, c: T)
    ensures Filter(p, [a, b, c]) == (if p(a) then [a] else []) + (if p(b) then [b] else []) + (if p(c) then [c] else [])
  {
    FilterOne(p, a);
    FilterOne(p, b);
    FilterOne(p, c);
    hide Filter;
    assert [a, b, c] == [a] + ([b] + [c]);
    FilterAppend(p, [a], [b] + [c]);
    FilterAppend(p, [b], [c]);
  }

  // ---- laws

  /** Lowering the tolerance never loses a finding and never lowers its grade. */
  lemma ToleranceMonotone(e: Event, lower: i64, higher: i64)
    requires lower <= higher && Stomped(e, higher)
    ensures Stomped(e, lower) && Grade(e, higher).Rank() <= Grade(e, lower).Rank()
  {}

  /** Under the contrast the verdict is the same for all nonnegative tolerances. */
  lemma ContrastIgnoresTolerance(e: Event, a: i64, b: i64)
    requires a >= 0 && b >= 0 && e.fnCreated.Some? && Contrast(e)
    ensures Stomped(e, a) <==> Stomped(e, b)
    ensures Grade(e, a) == Grade(e, b)
  {}

  /** The event with every stamp moved by whole seconds. */
  ghost predicate IsShift(e: Event, f: Event, seconds: int) {
    && f.isFileCreate == e.isFileCreate && f.highFpPath == e.highFpPath
    && f.ts == e.ts + seconds * NANOS
    && Moved(e.fnCreated, f.fnCreated, seconds) && Moved(e.siCreated, f.siCreated, seconds)
    && Moved(e.siModified, f.siModified, seconds) && Moved(e.siAccessed, f.siAccessed, seconds)
  }

  ghost predicate Moved(a: Option<i64>, b: Option<i64>, seconds: int) {
    if a.Some? then b.Some? && b.value == a.value + seconds * NANOS else b.None?
  }

  lemma WholeSecondShift(ns: int, seconds: int)
    ensures IsWholeSecond(ns + seconds * NANOS) <==> IsWholeSecond(ns)
  {
    var q, r := ns / NANOS, ns % NANOS;
    assert ns + seconds * NANOS == (q + seconds) * NANOS + r;
    assert (ns + seconds * NANOS) % NANOS == r;
  }

  /** Moving all stamps by whole seconds changes neither verdict nor grade, as long as no threshold saturates. */
  lemma ShiftInvariant(e: Event, f: Event, seconds: int, tolerance: i64)
    requires IsShift(e, f, seconds) && e.fnCreated.Some?
    requires I64_MIN <= e.fnCreated.value - tolerance <= I64_MAX
    requires I64_MIN <= f.fnCreated.value - tolerance <= I64_MAX
    ensures Stomped(f, tolerance) <==> Stomped(e, tolerance)
    ensures Grade(f, tolerance) == Grade(e, tolerance)
  {
    WholeSecondShift(e.fnCreated.value, seconds);
    WholeSecondShift(Born(e), seconds);
    if e.siModified.Some? {
      WholeSecondShift(e.siModified.value, seconds);
    }
    assert Contrast(e) <==> Contrast(f);
    assert forall m: Modifier :: IsBenign(e, m) <==> IsBenign(f, m);
  }

  // ---- the verdict in the fields of the event

  /** The stamp precedes the `$FILE_NAME` birth by more than the tolerance or, under the contrast, at all. */
  ghost predicate IsEarly(e: Event, tolerance: i64, stamp: i64)
    requires e.fnCreated.Some?
  {
    || (stamp < e.fnCreated.value - tolerance && stamp < I64_MAX)
    || (stamp < e.fnCreated.value && IsZeroed(e))
  }

  /** The `$FILE_NAME` birth has a fraction of a second, and a `$STANDARD_INFORMATION` stamp has none. */
  ghost predicate IsZeroed(e: Event)
    requires e.fnCreated.Some?
  {
    && e.fnCreated.value % 1_000_000_000 != 0
    && ((e.siCreated.Some? && e.siCreated.value % 1_000_000_000 == 0)
        || (e.siCreated.None? && e.ts % 1_000_000_000 == 0)
        || (e.siModified.Some? && e.siModified.value % 1_000_000_000 == 0))
  }

  /** Created after modified, accessed after both, or a path where divergence is routine. */
  ghost predicate HasExcuse(e: Event) {
    var born := if e.siCreated.Some? then e.siCreated.value else e.ts;
    || (e.siModified.Some? && e.siModified.value < born)
    || (e.siModified.Some? && e.siAccessed.Some?
        && born < e.siAccessed.value && e.siModified.value < e.siAccessed.value)
    || e.highFpPath
  }

  /** When there is a finding, and its grade. */
  lemma VerdictIff(e: Event, tolerance: i64)
    ensures Stomped(e, tolerance) <==>
            && e.isFileCreate && e.fnCreated.Some?
            && (IsEarly(e, tolerance, if e.siCreated.Some? then e.siCreated.value else e.ts)
                || (e.siModified.Some? && IsEarly(e, tolerance, e.siModified.value)))
    ensures e.fnCreated.Some? ==>
              && (Grade(e, tolerance) == Medium <==> IsZeroed(e) && !HasExcuse(e))
              && (Grade(e, tolerance) == Low <==>
                    !IsZeroed(e) && !HasExcuse(e) && e.siModified.Some? && IsEarly(e, tolerance, e.siModified.value))
  {
    assert HasExcuse(e) <==> exists m: Modifier :: IsBenign(e, m) by {
      assert IsBenign(e, CopyPattern) || IsBenign(e, VolumeMove) || IsBenign(e, HighFpPath) <==> HasExcuse(e);
      forall m: Modifier | IsBenign(e, m) ensures m == CopyPattern || m == VolumeMove || m == HighFpPath {}
    }
  }

  /** Which signals and modifiers hold. */
  lemma SignsIff(e: Event, tolerance: i64)
    requires e.fnCreated.Some?
    ensures var born := if e.siCreated.Some? then e.siCreated.value else e.ts;
            && (IsGiven(e, tolerance, CreatedBeforeFn) <==> IsEarly(e, tolerance, born))
            && (IsGiven(e, tolerance, ModifiedBeforeFn) <==>
                  e.siModified.Some? && IsEarly(e, tolerance, e.siModified.value))
            && (IsGiven(e, tolerance, SubSecondZeroed) <==> IsZeroed(e))
            && (IsBenign(e, CopyPattern) <==> e.siModified.Some? && e.siModified.value < born)
            && (IsBenign(e, VolumeMove) <==>
                  && e.siModified.Some? && e.siAccessed.Some?
                  && born < e.siAccessed.value && e.siModified.value < e.siAccessed.value)
            && (IsBenign(e, HighFpPath) <==> e.highFpPath)
  {
    VerdictIff(e, tolerance);
  }
}
