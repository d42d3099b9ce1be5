/**
  The inverted index from entity to candidate positions that replaces the full
  candidate scan, and the proof that it changes no outcome.
 */
module EntityIndex {
  import opened Wrappers
  import opened Sequences
  import opened Sorting
  import opened Evaluator

  type Index = map<EntityRef, seq<nat>>

  predicate Posted(index: Index, e: EntityRef, p: nat) { e in index && p in index[e] }

  /** The bucket of every entity holds exactly the positions of the candidates that carry it. */
  ghost predicate IsIndexOf(index: Index, candidates: seq<Event>) {
    forall e, p: nat :: Posted(index, e, p) <==> p < |candidates| && e in candidates[p].entityRefs
  }

  /** Appends one posting to the bucket of `e`. */
  function Post(index: Index, e: EntityRef, p: nat): (r: Index)
    ensures forall f, q: nat :: Posted(r, f, q) <==> Posted(index, f, q) || (f == e && q == p)
  {
    index[e := (if e in index then index[e] else []) + [p]]
  }

  method BuildEntityIndex(candidates: seq<Event>) returns (index: Index)
    ensures IsIndexOf(index, candidates)
  {
    index := map[];
    for pos := 0 to |candidates|
      invariant forall e, p: nat :: Posted(index, e, p) <==> p < pos && e in candidates[p].entityRefs
    {
      var refs := candidates[pos].entityRefs;
      for k := 0 to |refs|
        invariant forall e, p: nat :: Posted(index, e, p) <==>
                    (p < pos && e in candidates[p].entityRefs) || (p == pos && e in refs[..k])
      {
        assert refs[..k + 1] == refs[..k] + [refs[k]];
        index := Post(index, refs[k], pos);
      }
      assert refs[..|refs|] == refs;
    }
  }

  ghost predicate StrictlyIncreasing(ps: seq<nat>) {
    forall i, j :: 0 <= i < j < |ps| ==> ps[i] < ps[j]
  }

  lemma StrictCons(x: nat, ps: seq<nat>)
    requires StrictlyIncreasing(ps) && forall p :: p in ps ==> x < p
    ensures StrictlyIncreasing([x] + ps)
  {
    forall i, j | 0 <= i < j < |[x] + ps| ensures ([x] + ps)[i] < ([x] + ps)[j] {
      assert ([x] + ps)[j] == ps[j - 1] && ps[j - 1] in ps;
    }
  }

  predicate NatLe(x: nat, y: nat) { x <= y }

  /** Drops each element equal to its predecessor. */
  function Dedup(ps: seq<nat>): seq<nat> {
    if |ps| < 2 then ps
    else if ps[0] == ps[1] then Dedup(ps[1..])
    else [ps[0]] + Dedup(ps[1..])
  }

  lemma {:induction false} DedupSorted(ps: seq<nat>)
    requires Sorted(NatLe, ps)
    ensures StrictlyIncreasing(Dedup(ps))
    ensures forall p :: p in Dedup(ps) <==> p in ps
  {
    if |ps| >= 2 {
      DedupSorted(ps[1..]);
      forall p | p in ps[1..] ensures ps[1] <= p {
        var i :| 1 <= i < |ps| && ps[i] == p;
        assert i == 1 || NatLe(ps[1], ps[i]);
      }
      assert ps == [ps[0]] + ps[1..] && NatLe(ps[0], ps[1]);
      if ps[0] != ps[1] {
        StrictCons(ps[0], Dedup(ps[1..]));
      }
    }
  }

  lemma {:induction false} FilterStrict(keep: nat -> bool, ps: seq<nat>)
    requires StrictlyIncreasing(ps)
    ensures StrictlyIncreasing(Filter(keep, ps))
  {
    if ps != [] {
      FilterStrict(keep, ps[1..]);
      StrictCons(ps[0], Filter(keep, ps[1..]));
    }
  }

  method EntityCandidatePositions(anchor: Event, index: Index, exclude: Option<nat>) returns (positions: seq<nat>)
    ensures StrictlyIncreasing(positions)
    ensures forall p :: p in positions <==>
              exclude != Some(p) && exists e :: e in anchor.entityRefs && Posted(index, e, p)
  {
    positions := [];
    for k := 0 to |anchor.entityRefs|
      invariant forall p: nat :: p in positions ==> exists e :: e in anchor.entityRefs && Posted(index, e, p)
      invariant forall j, p: nat :: 0 <= j < k && Posted(index, anchor.entityRefs[j], p) ==> p in positions
    {
      var entity := anchor.entityRefs[k];
      if entity in index {
        assert forall p: nat :: p in index[entity] ==> entity in anchor.entityRefs && Posted(index, entity, p);
        positions := positions + index[entity];
      }
    }
    ghost var hits := positions;
    positions := StableSort(NatLe, positions);
    StableSortSorted(NatLe, hits);
    SameElements(positions, hits);
    DedupSorted(positions);
    positions := Dedup(positions);
    if exclude.Some? {
      var keep := (p: nat) => p != exclude.value;
      FilterStrict(keep, positions);
      positions := Filter(keep, positions);
    }
  }

  // ---- picking candidates by position

  /** `cs` lists the candidates of `all` at positions `ps`, in that order. */
  ghost predicate Picks(cs: seq<Event>, all: seq<Event>, ps: seq<nat>) {
    |cs| == |ps| && forall k :: 0 <= k < |ps| ==> ps[k] < |all| && cs[k] == all[ps[k]]
  }

  /** The positions the index is meant to return. */
  ghost predicate AreSharingPositions(ps: seq<nat>, anchor: Event, all: seq<Event>, exclude: Option<nat>) {
    && StrictlyIncreasing(ps)
    && forall p :: p in ps <==>
         0 <= p < |all| && exclude != Some(p) && SharesEntity(anchor.entityRefs, all[p].entityRefs)
  }

  /** The candidates sharing an entity with the anchor, without the excluded one, once each and in order. */
  ghost predicate IsReduced(reduced: seq<Event>, anchor: Event, all: seq<Event>, exclude: Option<nat>) {
    exists ps :: AreSharingPositions(ps, anchor, all, exclude) && Picks(reduced, all, ps)
  }

  method ReducedCandidates(anchor: Event, index: Index, all: seq<Event>, exclude: Option<nat>)
    returns (reduced: seq<Event>)
    requires IsIndexOf(index, all)
    ensures IsReduced(reduced, anchor, all, exclude)
  {
    var ps := EntityCandidatePositions(anchor, index, exclude);
    forall p: nat ensures p in ps <==>
      p < |all| && exclude != Some(p) && SharesEntity(anchor.entityRefs, all[p].entityRefs)
    {
      if p < |all| && SharesEntity(anchor.entityRefs, all[p].entityRefs) {
        var e :| e in anchor.entityRefs && e in all[p].entityRefs;
        assert Posted(index, e, p);
      }
    }
    reduced := [];
    for k := 0 to |ps|
      invariant |reduced| == k
      invariant forall i :: 0 <= i < k ==> ps[i] < |all| && reduced[i] == all[ps[i]]
    {
      assert ps[k] in ps;
      reduced := reduced + [all[ps[k]]];
    }
    assert AreSharingPositions(ps, anchor, all, exclude) && Picks(reduced, all, ps);
  }

  // ---- the index changes no outcome

  /** Two increasing choices that agree on the admissible positions give one outcome. */
  lemma OutcomeOfPicks(rule: RuleSpec, anchor: Event, all: seq<Event>,
                       cs: seq<Event>, ps: seq<nat>, ds: seq<Event>, qs: seq<nat>)
    requires StrictlyIncreasing(ps) && StrictlyIncreasing(qs) && Picks(cs, all, ps) && Picks(ds, all, qs)
    requires forall p: nat :: p < |all| && Admissible(rule, anchor, all[p]) ==> (p in ps <==> p in qs)
    ensures Outcome(rule, anchor, cs) == Outcome(rule, anchor, ds)
  {
    if AnchorOk(rule, anchor) {
      if i :| IsNearest(rule, anchor, cs, i) {
        var j := NearestTransfers(rule, anchor, all, cs, ps, ds, qs, i);
        OutcomeIs(rule, anchor, cs, i);
        OutcomeIs(rule, anchor, ds, j);
      } else if j :| IsNearest(rule, anchor, ds, j) {
        var i := NearestTransfers(rule, anchor, all, ds, qs, cs, ps, j);
        OutcomeIs(rule, anchor, cs, i);
        OutcomeIs(rule, anchor, ds, j);
      }
    }
  }

  lemma NearestTransfers(rule: RuleSpec, anchor: Event, all: seq<Event>,
                         cs: seq<Event>, ps: seq<nat>, ds: seq<Event>, qs: seq<nat>, i: int) returns (j: int)
    requires StrictlyIncreasing(ps) && StrictlyIncreasing(qs) && Picks(cs, all, ps) && Picks(ds, all, qs)
    requires forall p: nat :: p < |all| && Admissible(rule, anchor, all[p]) ==> (p in ps <==> p in qs)
    requires IsNearest(rule, anchor, cs, i)
    ensures IsNearest(rule, anchor, ds, j) && ds[j] == cs[i]
  {
    assert ps[i] in qs;
    j :| 0 <= j < |qs| && qs[j] == ps[i];
    forall k | 0 <= k < |ds| && Admissible(rule, anchor, ds[k])
      ensures Distance(anchor, ds[j]) <= Distance(anchor, ds[k])
      ensures k < j ==> Distance(anchor, ds[j]) < Distance(anchor, ds[k])
    {
      assert qs[k] in ps;
      var m :| 0 <= m < |ps| && ps[m] == qs[k];
      assert Admissible(rule, anchor, cs[m]);
      assert k < j ==> ps[m] < ps[i];
    }
  }

  /** The full candidate list without the excluded position. */
  function Without(all: seq<Event>, exclude: Option<nat>): seq<Event> {
    if exclude.Some? && exclude.value < |all|
    then all[..exclude.value] + all[exclude.value + 1..]
    else all
  }

  /** Every position below `n` except the excluded one. */
  function OtherPositions(n: nat, exclude: Option<nat>): seq<nat> {
    if exclude.Some? && exclude.value < n
    then seq(n - 1, k requires 0 <= k => if k < exclude.value then k else k + 1)
    else seq(n, k requires 0 <= k => k)
  }

  lemma OtherPositionsAre(n: nat, exclude: Option<nat>)
    ensures StrictlyIncreasing(OtherPositions(n, exclude))
    ensures forall p: nat :: p < n ==> (p in OtherPositions(n, exclude) <==> exclude != Some(p))
  {
    var ps := OtherPositions(n, exclude);
    forall p: nat | p < n ensures p in ps <==> exclude != Some(p) {
      if exclude == Some(p) {
        assert forall k :: 0 <= k < |ps| ==> ps[k] != p;
      } else {
        assert ps[if exclude.Some? && exclude.value < p then p - 1 else p] == p;
      }
    }
  }

  lemma WithoutPicksOthers(all: seq<Event>, exclude: Option<nat>)
    ensures Picks(Without(all, exclude), all, OtherPositions(|all|, exclude))
  {}

  /** For every rule, anchor, candidate list and exclusion, the reduced scan is the full scan. */
  lemma IndexRefinesFullScan(rule: RuleSpec, anchor: Event, all: seq<Event>, exclude: Option<nat>, reduced: seq<Event>)
    requires IsReduced(reduced, anchor, all, exclude)
    ensures Outcome(rule, anchor, reduced) == Outcome(rule, anchor, Without(all, exclude))
  {
    var ps :| AreSharingPositions(ps, anchor, all, exclude) && Picks(reduced, all, ps);
    OtherPositionsAre(|all|, exclude);
    WithoutPicksOthers(all, exclude);
    OutcomeOfPicks(rule, anchor, all, reduced, ps, Without(all, exclude), OtherPositions(|all|, exclude));
  }
}
