/**
  Short-lived processes: every start is paired with the nearest exit at or after it.
 */
module ShortLived {
  import opened Wrappers
  import opened MachineInts
  import opened Sequences
  import opened Sorting
  import opened Evaluator

  /** (host, process name). */
  type Key = (string, string)
  type Times = map<Key, seq<int>>

  function HostOf(e: Event): string { if e.hostname.Some? then e.hostname.value else "" }

  /** Event `e` puts process `key` at time `t`. */
  predicate Places(e: Event, key: Key, t: int) {
    e.ts == t && HostOf(e) == key.0 && EntityRef.Process(key.1) in e.entityRefs
  }

  ghost predicate Seen(events: seq<Event>, eventType: string, key: Key, t: int) {
    t > 0 && exists e :: e in events && e.eventType == eventType && Places(e, key, t)
  }

  /** `end` is the nearest exit at or after `start`. */
  ghost predicate NearestExit(events: seq<Event>, key: Key, start: int, end: int) {
    && Seen(events, "ProcessExit", key, end) && start <= end
    && forall t :: Seen(events, "ProcessExit", key, t) && start <= t ==> end <= t
  }

  ghost predicate FlaggedByNearest(events: seq<Event>, shortLived: int -> bool, key: Key) {
    exists start, end :: Seen(events, "ProcessExec", key, start) && NearestExit(events, key, start, end)
                         && shortLived((end - start) / NANOS)
  }

  /** What the name promises: some start and some later exit are close enough. */
  ghost predicate FlaggedByAny(events: seq<Event>, shortLived: int -> bool, key: Key) {
    exists start, end :: Seen(events, "ProcessExec", key, start) && Seen(events, "ProcessExit", key, end)
                         && start <= end && shortLived((end - start) / NANOS)
  }

  // ---- the buckets

  predicate Holds(m: Times, key: Key, t: int) { key in m && t in m[key] }

  function Push(m: Times, key: Key, t: int): (r: Times)
    ensures forall k, u :: Holds(r, k, u) <==> Holds(m, k, u) || (k == key && u == t)
  {
    m[key := (if key in m then m[key] else []) + [t]]
  }

  method PushProcesses(m: Times, e: Event) returns (r: Times)
    ensures forall k, t :: Holds(r, k, t) <==> Holds(m, k, t) || Places(e, k, t)
  {
    r := m;
    var host := HostOf(e);
    for j := 0 to |e.entityRefs|
      invariant forall k, t :: Holds(r, k, t) <==>
                  Holds(m, k, t) || (t == e.ts && k.0 == host && EntityRef.Process(k.1) in e.entityRefs[..j])
    {
      assert e.entityRefs[..j + 1] == e.entityRefs[..j] + [e.entityRefs[j]];
      if e.entityRefs[j].Process? {
        r := Push(r, (host, e.entityRefs[j].name), e.ts);
      }
    }
    assert e.entityRefs[..|e.entityRefs|] == e.entityRefs;
  }

  lemma SeenAppend(events: seq<Event>, e: Event, eventType: string, key: Key, t: int)
    ensures Seen(events + [e], eventType, key, t) <==>
            Seen(events, eventType, key, t) || (t > 0 && e.eventType == eventType && Places(e, key, t))
  {
    if Seen(events, eventType, key, t) {
      var d :| d in events && d.eventType == eventType && Places(d, key, t);
      assert d in events + [e];
    }
    assert e in events + [e];
  }

  method CollectTimes(events: seq<Event>) returns (execs: Times, exits: Times)
    ensures forall k, t :: Holds(execs, k, t) <==> Seen(events, "ProcessExec", k, t)
    ensures forall k, t :: Holds(exits, k, t) <==> Seen(events, "ProcessExit", k, t)
  {
    execs, exits := map[], map[];
    for i := 0 to |events|
      invariant forall k, t :: Holds(execs, k, t) <==> Seen(events[..i], "ProcessExec", k, t)
      invariant forall k, t :: Holds(exits, k, t) <==> Seen(events[..i], "ProcessExit", k, t)
    {
      var e := events[i];
      assert events[..i + 1] == events[..i] + [e];
      forall k, t
        ensures Seen(events[..i + 1], "ProcessExec", k, t) <==>
                Seen(events[..i], "ProcessExec", k, t) || (t > 0 && e.eventType == "ProcessExec" && Places(e, k, t))
        ensures Seen(events[..i + 1], "ProcessExit", k, t) <==>
                Seen(events[..i], "ProcessExit", k, t) || (t > 0 && e.eventType == "ProcessExit" && Places(e, k, t))
      {
        SeenAppend(events[..i], e, "ProcessExec", k, t);
        SeenAppend(events[..i], e, "ProcessExit", k, t);
      }
      if e.ts <= 0 {
        continue;
      }
      if e.eventType == "ProcessExec" {
        execs := PushProcesses(execs, e);
      } else if e.eventType == "ProcessExit" {
        exits := PushProcesses(exits, e);
      }
    }
    assert events[..|events|] == events;
  }

  // ---- the pairing

  /** The first element of an ascending list that is at least `start`. */
  method FirstAtOrAfter(ends: seq<int>, start: int) returns (end: Option<int>)
    requires Sorted(IntLe, ends)
    ensures end.None? ==> forall t :: t in ends ==> t < start
    ensures end.Some? ==> end.value in ends && start <= end.value
    ensures end.Some? ==> forall t :: t in ends && start <= t ==> end.value <= t
  {
    for k := 0 to |ends|
      invariant forall j :: 0 <= j < k ==> ends[j] < start
    {
      if ends[k] >= start {
        forall t | t in ends && start <= t ensures ends[k] <= t {
          var j :| 0 <= j < |ends| && ends[j] == t;
          assert k < j ==> IntLe(ends[k], ends[j]);
        }
        return Some(ends[k]);
      }
    }
    return None;
  }

  /** One key: pair each start with the nearest exit at or after it, until one pair is short-lived. */
  method AnyPairShortLived(ghost events: seq<Event>, ghost key: Key, shortLived: int -> bool,
                           starts: seq<int>, ends: seq<int>) returns (flagged: bool)
    requires forall t :: t in starts <==> Seen(events, "ProcessExec", key, t)
    requires forall t :: t in ends <==> Seen(events, "ProcessExit", key, t)
    requires Sorted(IntLe, ends)
    ensures flagged <==> FlaggedByNearest(events, shortLived, key)
  {
    for k := 0 to |starts|
      invariant forall j, end :: 0 <= j < k && NearestExit(events, key, starts[j], end) ==>
                  !shortLived((end - starts[j]) / NANOS)
    {
      var end := FirstAtOrAfter(ends, starts[k]);
      if end.Some? {
        assert starts[k] in starts && NearestExit(events, key, starts[k], end.value);
        if shortLived((end.value - starts[k]) / NANOS) {
          return true;
        }
      }
    }
    return false;
  }

  method ShortLivedProcessNames(events: seq<Event>, shortLived: int -> bool) returns (out: set<Key>)
    ensures forall key :: key in out <==> FlaggedByNearest(events, shortLived, key)
  {
    var execs, exits := CollectTimes(events);
    out := {};
    var keys := execs.Keys;
    while keys != {}
      invariant keys <= execs.Keys
      invariant forall key :: key in out ==> FlaggedByNearest(events, shortLived, key)
      invariant forall key :: key in execs && key !in keys && FlaggedByNearest(events, shortLived, key) ==> key in out
    {
      var key :| key in keys;
      keys := keys - {key};
      if key !in exits {
        assert forall t :: !Holds(exits, key, t);
        continue;
      }
      var starts, ends := StableSort(IntLe, execs[key]), StableSort(IntLe, exits[key]);
      StableSortSorted(IntLe, exits[key]);
      SameElements(starts, execs[key]);
      SameElements(ends, exits[key]);
      assert forall t :: t in starts <==> Holds(execs, key, t);
      assert forall t :: t in ends <==> Holds(exits, key, t);
      var flagged := AnyPairShortLived(events, key, shortLived, starts, ends);
      if flagged {
        out := out + {key};
      }
    }
    forall key | FlaggedByNearest(events, shortLived, key) ensures key in execs {
      var start, end :| Seen(events, "ProcessExec", key, start) && NearestExit(events, key, start, end);
      assert Holds(execs, key, start);
    }
  }

  // ---- nearest pairing against any pairing

  /** Shorter than short-lived is short-lived, over the lifetimes that timestamps can express. */
  ghost predicate DownwardClosed(shortLived: int -> bool) {
    forall a, b :: 0 <= a <= b && b * NANOS + 1 <= I64_MAX && shortLived(b) ==> shortLived(a)
  }

  lemma NearestExists(events: seq<Event>, key: Key, start: int, end: int) returns (nearest: int)
    requires Seen(events, "ProcessExit", key, end) && start <= end
    ensures NearestExit(events, key, start, nearest) && nearest <= end
    decreases end - start
  {
    if t :| Seen(events, "ProcessExit", key, t) && start <= t < end {
      nearest := NearestExists(events, key, start, t);
    } else {
      nearest := end;
    }
  }

  /**
    Pairing with the nearest exit flags what pairing with any later exit would, on every
    log, exactly when the threshold is downward closed.
   */
  lemma NearestIsAnyIffDownwardClosed(shortLived: int -> bool)
    ensures DownwardClosed(shortLived) <==>
            forall events: seq<Event>, key :: FlaggedByNearest(events, shortLived, key) <==>
                                              FlaggedByAny(events, shortLived, key)
  {
    if DownwardClosed(shortLived) {
      forall events: seq<Event>, key | FlaggedByAny(events, shortLived, key)
        ensures FlaggedByNearest(events, shortLived, key)
      {
        ClosedMakesNearestEnough(events, shortLived, key);
      }
    } else {
      var a, b :| 0 <= a <= b && b * NANOS + 1 <= I64_MAX && shortLived(b) && !shortLived(a);
      NotClosedMissesOne(shortLived, a, b);
    }
  }

  lemma ClosedMakesNearestEnough(events: seq<Event>, shortLived: int -> bool, key: Key)
    requires DownwardClosed(shortLived) && FlaggedByAny(events, shortLived, key)
    ensures FlaggedByNearest(events, shortLived, key)
  {
    var start, end :| Seen(events, "ProcessExec", key, start) && Seen(events, "ProcessExit", key, end)
                      && start <= end && shortLived((end - start) / NANOS);
    var nearest := NearestExists(events, key, start, end);
    var a, b := (nearest - start) / NANOS, (end - start) / NANOS;
    assert NANOS * b <= end - start && 0 <= a <= b && 1 <= start;
    var e :| e in events && Places(e, key, end);
    assert Places(e, key, end);
    assert end == e.ts;
    var ts: i64 := e.ts;
    assert ts <= I64_MAX;
    assert b * NANOS + 1 <= I64_MAX;
  }

  /** One start with an exit after `a` seconds and one after `b`. */
  function TwoExits(a: int, b: int): seq<Event>
    requires 0 <= a <= b && b * NANOS + 1 <= I64_MAX
  {
    var ps := [EntityRef.Process("p")];
    [Event(1, 1, "ProcessExec", ps, None, Disk, ""),
     Event(2, 1 + a * NANOS, "ProcessExit", ps, None, Disk, ""),
     Event(3, 1 + b * NANOS, "ProcessExit", ps, None, Disk, "")]
  }

  lemma TwoExitsSeen(a: int, b: int, t: int)
    requires 0 <= a <= b && b * NANOS + 1 <= I64_MAX
    ensures Seen(TwoExits(a, b), "ProcessExec", ("", "p"), t) <==> t == 1
    ensures Seen(TwoExits(a, b), "ProcessExit", ("", "p"), t) <==> t == 1 + a * NANOS || t == 1 + b * NANOS
  {
    var events := TwoExits(a, b);
    assert events[0] in events && events[1] in events && events[2] in events;
    assert forall k :: 0 <= k < 3 ==> EntityRef.Process("p") in events[k].entityRefs;
    assert forall e :: e in events ==> e == events[0] || e == events[1] || e == events[2];
  }

  lemma NotClosedMissesOne(shortLived: int -> bool, a: int, b: int)
    requires 0 <= a <= b && b * NANOS + 1 <= I64_MAX && shortLived(b) && !shortLived(a)
    ensures exists events: seq<Event>, key ::
              FlaggedByAny(events, shortLived, key) && !FlaggedByNearest(events, shortLived, key)
  {
    var events, key := TwoExits(a, b), ("", "p");
    var soon, late := 1 + a * NANOS, 1 + b * NANOS;
    assert (late - 1) / NANOS == b && (soon - 1) / NANOS == a;
    TwoExitsSeen(a, b, 1);
    TwoExitsSeen(a, b, soon);
    TwoExitsSeen(a, b, late);
    assert FlaggedByAny(events, shortLived, key);
    forall s, t | Seen(events, "ProcessExec", key, s) && NearestExit(events, key, s, t)
      ensures !shortLived((t - s) / NANOS)
    {
      TwoExitsSeen(a, b, s);
      TwoExitsSeen(a, b, t);
      assert t <= soon;
    }
  }

  /** The flagged set does not depend on the order of the log. */
  lemma FlaggedUnderPermutation(events: seq<Event>, permuted: seq<Event>, shortLived: int -> bool, key: Key)
    requires multiset(events) == multiset(permuted)
    ensures FlaggedByNearest(events, shortLived, key) <==> FlaggedByNearest(permuted, shortLived, key)
  {
    SameElements(events, permuted);
    assert forall ty, t :: Seen(events, ty, key, t) <==> Seen(permuted, ty, key, t);
    assert forall s, t :: NearestExit(events, key, s, t) <==> NearestExit(permuted, key, s, t);
  }

  /** An execution event of the process that counts. */
  ghost predicate IsStart(e: Event, host: string, name: string) {
    && e.eventType == "ProcessExec" && e.ts > 0 && EntityRef.Process(name) in e.entityRefs
    && (if e.hostname.Some? then e.hostname.value == host else host == "")
  }

  ghost predicate IsExit(e: Event, host: string, name: string) {
    && e.eventType == "ProcessExit" && e.ts > 0 && EntityRef.Process(name) in e.entityRefs
    && (if e.hostname.Some? then e.hostname.value == host else host == "")
  }

  /** A start of the process with its nearest exit. */
  ghost predicate IsLifetime(events: seq<Event>, host: string, name: string, s: Event, e: Event) {
    && s in events && e in events && IsStart(s, host, name) && IsExit(e, host, name) && s.ts <= e.ts
    && forall x :: x in events && IsExit(x, host, name) && s.ts <= x.ts ==> e.ts <= x.ts
  }

  lemma PairIsLifetime(events: seq<Event>, host: string, name: string, start: int, end: int)
    returns (s: Event, e: Event)
    requires Seen(events, "ProcessExec", (host, name), start) && NearestExit(events, (host, name), start, end)
    ensures IsLifetime(events, host, name, s, e) && s.ts == start && e.ts == end
  {
    StartsAreSeen(events, host, name, start);
    StartsAreSeen(events, host, name, end);
    hide IsStart, IsExit, Places, Seen;
    s :| s in events && IsStart(s, host, name) && s.ts == start;
    e :| e in events && IsExit(e, host, name) && e.ts == end;
    forall x | x in events && IsExit(x, host, name) && s.ts <= x.ts ensures e.ts <= x.ts {
      StartsAreSeen(events, host, name, x.ts);
    }
  }

  lemma LifetimeIsPair(events: seq<Event>, host: string, name: string, s: Event, e: Event)
    requires IsLifetime(events, host, name, s, e)
    ensures Seen(events, "ProcessExec", (host, name), s.ts) && NearestExit(events, (host, name), s.ts, e.ts)
  {
    StartsAreSeen(events, host, name, s.ts);
    StartsAreSeen(events, host, name, e.ts);
    hide IsStart, IsExit, Places, Seen;
    forall t | Seen(events, "ProcessExit", (host, name), t) && s.ts <= t ensures e.ts <= t {
      StartsAreSeen(events, host, name, t);
    }
  }

  /** When a process is flagged, in the fields of the events: a start and its nearest exit are close enough. */
  lemma FlaggedIff(events: seq<Event>, shortLived: int -> bool, host: string, name: string)
    ensures FlaggedByNearest(events, shortLived, (host, name)) <==>
            exists s, e :: IsLifetime(events, host, name, s, e) && shortLived((e.ts - s.ts) / 1_000_000_000)
  {
    hide Seen, NearestExit, IsLifetime;
    if start, end :| Seen(events, "ProcessExec", (host, name), start) && NearestExit(events, (host, name), start, end)
                     && shortLived((end - start) / NANOS) {
      var s, e := PairIsLifetime(events, host, name, start, end);
    }
    if s, e :| IsLifetime(events, host, name, s, e) && shortLived((e.ts - s.ts) / 1_000_000_000) {
      LifetimeIsPair(events, host, name, s, e);
    }
  }

  lemma StartsAreSeen(events: seq<Event>, host: string, name: string, t: int)
    ensures Seen(events, "ProcessExec", (host, name), t) <==>
            exists s :: s in events && IsStart(s, host, name) && s.ts == t
    ensures Seen(events, "ProcessExit", (host, name), t) <==>
            exists e :: e in events && IsExit(e, host, name) && e.ts == t
  {
    assert forall s :: IsStart(s, host, name) <==>
             s.ts > 0 && s.eventType == "ProcessExec" && Places(s, (host, name), s.ts);
    assert forall e :: IsExit(e, host, name) <==>
             e.ts > 0 && e.eventType == "ProcessExit" && Places(e, (host, name), e.ts);
    hide Places, IsStart, IsExit;
    assert forall e, key: Key, u :: Places(e, key, u) ==> e.ts == u by {
      PlacesAtItsTime();
    }
  }

  lemma PlacesAtItsTime()
    ensures forall e, key: Key, t :: Places(e, key, t) ==> e.ts == t
  {}
}
