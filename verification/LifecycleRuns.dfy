/** Whole-run facts: what stays active, how long the stream was absent, what was listed and counted. */
module LifecycleRuns {
  import opened Prelude
  import opened Seqs
  import opened Sorting
  import opened Routes
  import opened Lifecycle
  import opened LifecycleProofs

  // ---- The active map, declaratively ----

  predicate Effective(t: RouteTransition) { t.kind.Withdrawal? || t.to.Some? }

  function HasKey(k: RouteKey): RouteTransition -> bool {
    (t: RouteTransition) => t.key == k
  }

  function OfKey(ts: seq<RouteTransition>, k: RouteKey): seq<RouteTransition> {
    Filter(ts, HasKey(k))
  }

  function LastEffect(ts: seq<RouteTransition>, k: RouteKey): Option<RouteTransition> {
    if ts == [] then None
    else
      var t := ts[|ts| - 1];
      if t.key == k && Effective(t) then Some(t) else LastEffect(ts[..|ts| - 1], k)
  }

  /** What the last effective transition of a key leaves there; without one, the baseline stands. */
  function Declared(baseline: Instances, ts: seq<RouteTransition>, k: RouteKey): Option<RouteState> {
    match LastEffect(ts, k)
    case Some(t) => if t.kind.Withdrawal? then None else t.to
    case None => if k in baseline then Some(baseline[k]) else None
  }

  lemma {:induction false} ActiveIsDeclared(baseline: Instances, ts: seq<RouteTransition>, k: RouteKey)
    ensures
      var active := ActiveAfter(baseline, ts);
      Declared(baseline, ts, k) == if k in active then Some(active[k]) else None
  {
    if ts != [] {
      ActiveIsDeclared(baseline, ts[..|ts| - 1], k);
    }
  }

  lemma {:induction false} LastEffectSnoc(ts: seq<RouteTransition>, t: RouteTransition, k: RouteKey)
    ensures LastEffect(ts + [t], k) == if t.key == k && Effective(t) then Some(t) else LastEffect(ts, k)
  {
    assert (ts + [t])[..|ts|] == ts;
  }

  lemma {:induction false} LastEffectOfKey(ts: seq<RouteTransition>, k: RouteKey)
    ensures LastEffect(ts, k) == LastEffect(OfKey(ts, k), k)
  {
    if ts != [] {
      var init, t := ts[..|ts| - 1], ts[|ts| - 1];
      LastEffectOfKey(init, k);
      assert ts == init + [t];
      FilterSnoc(init, t, HasKey(k));
      if t.key == k {
        LastEffectSnoc(OfKey(init, k), t, k);
      } else {
        assert OfKey(ts, k) == OfKey(init, k);
      }
    }
  }

  /** Any reordering that keeps each key's own transitions in order ends with the same active routes. */
  lemma {:induction false} OrderAcrossKeysIsIrrelevant(
      baseline: Instances, ts: seq<RouteTransition>, us: seq<RouteTransition>)
    requires forall k :: OfKey(ts, k) == OfKey(us, k)
    ensures ActiveAfter(baseline, ts) == ActiveAfter(baseline, us)
  {
    var a, b := ActiveAfter(baseline, ts), ActiveAfter(baseline, us);
    forall k ensures (k in a <==> k in b) && (k in a ==> a[k] == b[k]) {
      ActiveIsDeclared(baseline, ts, k);
      ActiveIsDeclared(baseline, us, k);
      LastEffectOfKey(ts, k);
      LastEffectOfKey(us, k);
    }
    assert a.Keys == b.Keys;
  }

  /** The order in which a stream's transitions are simulated: by time, then path identifier. */
  predicate Chronological(a: RouteTransition, b: RouteTransition) {
    a.Time() < b.Time() || (a.Time() == b.Time() && PathIdAtMost(a.key.pathId, b.key.pathId))
  }

  lemma ChronologicalIsTotal()
    ensures TotalPreorder(Chronological)
  {
  }

  /** By time, and at one time without an identifier first, then by number. */
  lemma ChronologicalMeaning(a: RouteTransition, b: RouteTransition)
    ensures Chronological(a, b) <==>
      a.Time() < b.Time() || (a.Time() == b.Time() && IdNotAfter(a.key.pathId, b.key.pathId))
  {
    PathIdOrderMeaning(a.key.pathId, b.key.pathId);
  }

  /** Sorting input that is chronological key by key does not change what is active at the end. */
  lemma {:induction false} SortingKeepsActive(baseline: Instances, ts: seq<RouteTransition>)
    requires forall k, i, j :: 0 <= i < j < |OfKey(ts, k)| ==> OfKey(ts, k)[i].Time() <= OfKey(ts, k)[j].Time()
    ensures ActiveAfter(baseline, SortBy(ts, Chronological)) == ActiveAfter(baseline, ts)
  {
    forall k ensures OfKey(SortBy(ts, Chronological), k) == OfKey(ts, k) {
      var p := HasKey(k);
      forall i, j | 0 <= i < j < |Filter(ts, p)| ensures Chronological(Filter(ts, p)[i], Filter(ts, p)[j]) {
        assert Filter(ts, p) == OfKey(ts, k);
        FilterMember(ts, p, Filter(ts, p)[i]);
        FilterMember(ts, p, Filter(ts, p)[j]);
      }
      SortKeepsOrderedPart(ts, Chronological, p);
    }
    OrderAcrossKeysIsIrrelevant(baseline, SortBy(ts, Chronological), ts);
  }

  // ---- What is listed and counted ----

  predicate InCooldown(t: RouteTransition) { t.phase.Cooldown? }

  predicate BeforeCooldown(t: RouteTransition) { !t.phase.Cooldown? }

  function Describe(tp: TransitPredicate): RouteTransition -> LifecycleTransition {
    (t: RouteTransition) => Described(t, tp)
  }

  lemma {:induction false} MapFilterSnoc<T, U>(xs: seq<T>, x: T, p: T -> bool, f: T -> U)
    ensures Map(Filter(xs + [x], p), f) == Map(Filter(xs, p), f) + (if p(x) then [f(x)] else [])
  {
    FilterSnoc(xs, x, p);
    MapSnoc(Filter(xs, p), x, f);
  }

  lemma {:induction false} MainSnoc(y: Tally, ts: seq<RouteTransition>, after: Instances, tp: TransitPredicate)
    requires ts != [] && y.main == Map(Filter(ts[..|ts| - 1], BeforeCooldown), Describe(tp))
    ensures Counted(y, ts[|ts| - 1], after, tp).main == Map(Filter(ts, BeforeCooldown), Describe(tp))
  {
    MapFilterSnoc(ts[..|ts| - 1], ts[|ts| - 1], BeforeCooldown, Describe(tp));
    assert ts == ts[..|ts| - 1] + [ts[|ts| - 1]];
  }

  lemma {:induction false} MainListMeaning(baseline: Instances, ts: seq<RouteTransition>, tp: TransitPredicate)
    ensures TallyAfter(baseline, ts, tp).main == Map(Filter(ts, BeforeCooldown), Describe(tp))
  {
    if ts != [] {
      MainListMeaning(baseline, ts[..|ts| - 1], tp);
      MainSnoc(TallyAfter(baseline, ts[..|ts| - 1], tp), ts, ActiveAfter(baseline, ts), tp);
    }
  }

  lemma {:induction false} CooldownSnoc(y: Tally, ts: seq<RouteTransition>, after: Instances, tp: TransitPredicate)
    requires ts != [] && y.cooldown == Map(Filter(ts[..|ts| - 1], InCooldown), Describe(tp))
    ensures Counted(y, ts[|ts| - 1], after, tp).cooldown == Map(Filter(ts, InCooldown), Describe(tp))
  {
    MapFilterSnoc(ts[..|ts| - 1], ts[|ts| - 1], InCooldown, Describe(tp));
    assert ts == ts[..|ts| - 1] + [ts[|ts| - 1]];
  }

  lemma {:induction false} CooldownListMeaning(baseline: Instances, ts: seq<RouteTransition>, tp: TransitPredicate)
    ensures TallyAfter(baseline, ts, tp).cooldown == Map(Filter(ts, InCooldown), Describe(tp))
  {
    if ts != [] {
      CooldownListMeaning(baseline, ts[..|ts| - 1], tp);
      CooldownSnoc(TallyAfter(baseline, ts[..|ts| - 1], tp), ts, ActiveAfter(baseline, ts), tp);
    }
  }

  /** Every transition is listed once, in order, in the main or in the cooldown list. */
  lemma {:induction false} ListsPartitionTransitions(
      baseline: Instances, ts: seq<RouteTransition>, tp: TransitPredicate)
    ensures
      var y := TallyAfter(baseline, ts, tp);
      && y.main == Map(Filter(ts, BeforeCooldown), Describe(tp))
      && y.cooldown == Map(Filter(ts, InCooldown), Describe(tp))
      && |y.main| + |y.cooldown| == |ts|
  {
    MainListMeaning(baseline, ts, tp);
    CooldownListMeaning(baseline, ts, tp);
    FiltersPartition(ts);
  }

  lemma {:induction false} FiltersPartition(ts: seq<RouteTransition>)
    ensures |Filter(ts, BeforeCooldown)| + |Filter(ts, InCooldown)| == |ts|
    ensures multiset(Filter(ts, BeforeCooldown) + Filter(ts, InCooldown)) == multiset(ts)
  {
    if ts != [] {
      FiltersPartition(ts[1..]);
      assert ts == [ts[0]] + ts[1..];
    }
  }

  /** The peak concurrency is attained, never exceeded, and never more than the instances ever seen. */
  lemma {:induction false} ConcurrencyMeaning(baseline: Instances, ts: seq<RouteTransition>, tp: TransitPredicate)
    ensures
      var y := TallyAfter(baseline, ts, tp);
      && (forall i :: 0 <= i <= |ts| ==> |ActiveAfter(baseline, ts[..i])| <= y.maxConcurrent)
      && (exists i :: 0 <= i <= |ts| && |ActiveAfter(baseline, ts[..i])| == y.maxConcurrent)
      && ActiveAfter(baseline, ts).Keys <= y.seenInstances
      && y.maxConcurrent <= |y.seenInstances|
  {
    if ts == [] {
      assert ts[..0] == [];
      assert |ActiveAfter(baseline, ts[..0])| == |baseline|;
    } else {
      var init, t := ts[..|ts| - 1], ts[|ts| - 1];
      ConcurrencyMeaning(baseline, init, tp);
      var y, y' := TallyAfter(baseline, init, tp), TallyAfter(baseline, ts, tp);
      var before, after := ActiveAfter(baseline, init), ActiveAfter(baseline, ts);
      ActedSize(before, t, y.seenInstances);
      SubsetSize(after.Keys, y'.seenInstances);
      SubsetSize(y.seenInstances, y'.seenInstances);
      forall i | 0 <= i <= |ts| ensures |ActiveAfter(baseline, ts[..i])| <= y'.maxConcurrent {
        if i == |ts| {
          assert ts[..i] == ts && init[..|init|] == init;
          assert |ActiveAfter(baseline, init[..|init|])| <= y.maxConcurrent;
        } else {
          assert ts[..i] == init[..i];
        }
      }
      if y'.maxConcurrent == y.maxConcurrent {
        var i :| 0 <= i <= |init| && |ActiveAfter(baseline, init[..i])| == y.maxConcurrent;
        assert ts[..i] == init[..i];
      } else {
        assert ts[..|ts|] == ts;
      }
    }
  }

  lemma ActedSize(before: Instances, t: RouteTransition, seen: set<RouteKey>)
    requires before.Keys <= seen
    ensures !Applies(t) ==> |Acted(before, t)| <= |before|
    ensures Acted(before, t).Keys <= seen + (if Applies(t) then {t.key} else {})
  {
    if t.kind.Withdrawal? {
      assert (before - {t.key}).Keys == before.Keys - {t.key};
      SubsetSize(before.Keys - {t.key}, before.Keys);
    }
  }

  lemma {:induction false} SubsetSize<T>(a: set<T>, b: set<T>)
    requires a <= b
    ensures |a| <= |b|
  {
    assert b == a + (b - a);
    assert |b| == |a| + |b - a|;
  }
}
