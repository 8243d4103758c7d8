/**
 * The simulation's flags and counters, which it accumulates indirectly,
 * coincide with plain statements about the whole run of the stream.
 */
module LifecycleProofs {
  import opened Prelude
  import opened Seqs
  import opened Sorting
  import opened Routes
  import opened Fingerprint
  import opened Lifecycle

  // ---- The run, without any bookkeeping ----

  /** One transition of the run, with the active instances before and after it. */
  datatype Moment = Moment(before: Instances, t: RouteTransition, after: Instances)

  function Trace(baseline: Instances, ts: seq<RouteTransition>): (tr: seq<Moment>)
    ensures |tr| == |ts|
  {
    if ts == [] then []
    else
      var init, t := ts[..|ts| - 1], ts[|ts| - 1];
      Trace(baseline, init) + [Moment(ActiveAfter(baseline, init), t, ActiveAfter(baseline, ts))]
  }

  lemma {:induction false} TraceAt(baseline: Instances, ts: seq<RouteTransition>, i: nat)
    requires i < |ts|
    ensures Trace(baseline, ts)[i] == Moment(ActiveAfter(baseline, ts[..i]), ts[i], ActiveAfter(baseline, ts[..i + 1]))
  {
    var init := ts[..|ts| - 1];
    if i < |ts| - 1 {
      TraceAt(baseline, init, i);
      assert init[..i] == ts[..i] && init[..i + 1] == ts[..i + 1];
    } else {
      assert ts[..i + 1] == ts;
    }
  }

  /** A withdrawal that leaves nothing active. */
  predicate Empties(m: Moment) { m.t.kind.Withdrawal? && m.after == map[] }

  /** Visible before, absent after. */
  predicate GoesAbsent(m: Moment) { m.before != map[] && m.after == map[] }

  /** Absent before, visible after. */
  predicate ComesBack(m: Moment) { ComesBackTo(m.before, m.after) }

  /** A withdrawal that arrives while the stream is already absent. */
  predicate WithdrawnAgain(m: Moment) { m.t.kind.Withdrawal? && m.before == map[] }

  function Times(tr: seq<Moment>, p: Moment -> bool): nat {
    |Filter(tr, p)|
  }

  lemma TimesPositive(tr: seq<Moment>, p: Moment -> bool)
    ensures Times(tr, p) > 0 <==> exists i :: 0 <= i < |tr| && p(tr[i])
  {
    if Times(tr, p) > 0 {
      FilterMember(tr, p, Filter(tr, p)[0]);
    }
    forall i | 0 <= i < |tr| && p(tr[i]) ensures Times(tr, p) > 0 {
      FilterMember(tr, p, tr[i]);
    }
  }

  // ---- Counters ----

  /** Withdrawals and restorations count exactly the emptying and the returning moments. */
  lemma {:induction false} CountersMeaning(baseline: Instances, ts: seq<RouteTransition>, tp: TransitPredicate)
    ensures
      var l, tr := LedgerAfter(baseline, ts, tp), Trace(baseline, ts);
      && l.withdrawalCount == Times(tr, Empties)
      && l.restorationCount == |l.restorations| == Times(tr, ComesBack)
  {
    if ts != [] {
      var init, t := ts[..|ts| - 1], ts[|ts| - 1];
      CountersMeaning(baseline, init, tp);
      var m := Moment(ActiveAfter(baseline, init), t, ActiveAfter(baseline, ts));
      FilterSnoc(Trace(baseline, init), m, Empties);
      FilterSnoc(Trace(baseline, init), m, ComesBack);
    }
  }

  // ---- The ledger ----

  lemma {:induction false} LedgerOfMoments(baseline: Instances, ts: seq<RouteTransition>)
    ensures
      var tr := Trace(baseline, ts);
      && Times(tr, GoesAbsent) + One(baseline == map[]) == Times(tr, ComesBack)
        + One(ActiveAfter(baseline, ts) == map[])
      && Times(tr, Empties) == Times(tr, GoesAbsent) + Times(tr, WithdrawnAgain)
  {
    if ts != [] {
      var init, t := ts[..|ts| - 1], ts[|ts| - 1];
      LedgerOfMoments(baseline, init);
      var m := Moment(ActiveAfter(baseline, init), t, ActiveAfter(baseline, ts));
      FilterSnoc(Trace(baseline, init), m, GoesAbsent);
      FilterSnoc(Trace(baseline, init), m, ComesBack);
      FilterSnoc(Trace(baseline, init), m, Empties);
      FilterSnoc(Trace(baseline, init), m, WithdrawnAgain);
      assert WithdrawnAgain(m) ==> m.after == map[];
    }
  }

  /**
   * Conservation: every withdrawal count is repaid by a restoration, by ending
   * absent, by having started absent, or is a withdrawal of an absent stream.
   */
  lemma {:induction false} WithdrawalLedger(baseline: Instances, ts: seq<RouteTransition>, tp: TransitPredicate)
    ensures
      var s := Simulate(baseline, ts, tp);
      && s.ledger.withdrawalCount + One(baseline == map[])
         == s.ledger.restorationCount + One(s.active == map[]) + Times(Trace(baseline, ts), WithdrawnAgain)
      && s.ledger.restorationCount <= s.ledger.withdrawalCount + One(baseline == map[])
  {
    CountersMeaning(baseline, ts, tp);
    LedgerOfMoments(baseline, ts);
  }

  /** The count is the documented one, visible-to-absent crossings, exactly when no withdrawal hits an absent stream. */
  lemma {:induction false} WithdrawalCountAsDocumentedExactly(
      baseline: Instances, ts: seq<RouteTransition>, tp: TransitPredicate)
    ensures LedgerAfter(baseline, ts, tp).withdrawalCount == Times(Trace(baseline, ts), GoesAbsent)
            <==> forall i :: 0 <= i < |ts| && ts[i].kind.Withdrawal? ==> ActiveAfter(baseline, ts[..i]) != map[]
  {
    var tr := Trace(baseline, ts);
    CountersMeaning(baseline, ts, tp);
    LedgerOfMoments(baseline, ts);
    TimesPositive(tr, WithdrawnAgain);
    forall i | 0 <= i < |ts|
      ensures WithdrawnAgain(tr[i]) <==> ts[i].kind.Withdrawal? && ActiveAfter(baseline, ts[..i]) == map[] {
      TraceAt(baseline, ts, i);
    }
    assert Times(tr, WithdrawnAgain) == 0 <==> forall i :: 0 <= i < |tr| ==> !WithdrawnAgain(tr[i]);
  }

  // ---- Categories ----

  ghost predicate Marked(tr: seq<Moment>, tp: TransitPredicate, c: StreamCategory) {
    exists i :: 0 <= i < |tr| && Marks(tr[i].t, tr[i].after, tp, c)
  }

  lemma MarkedByMeaning(t: RouteTransition, after: Instances, tp: TransitPredicate, c: StreamCategory)
    ensures c in MarkedBy(t, after, tp) <==> Marks(t, after, tp, c)
  {
  }

  lemma MarkedSnoc(tr: seq<Moment>, m: Moment, tp: TransitPredicate, c: StreamCategory)
    ensures Marked(tr + [m], tp, c) <==> Marked(tr, tp, c) || Marks(m.t, m.after, tp, c)
  {
    var long := tr + [m];
    assert long[|tr|] == m;
    if i :| 0 <= i < |tr| && Marks(tr[i].t, tr[i].after, tp, c) {
      assert long[i] == tr[i];
    }
  }

  lemma {:induction false} SeenMeaning(
      baseline: Instances, ts: seq<RouteTransition>, tp: TransitPredicate, c: StreamCategory)
    ensures c in FindingsAfter(baseline, ts, tp).seenCategories <==> Marked(Trace(baseline, ts), tp, c)
  {
    if ts != [] {
      var init, t := ts[..|ts| - 1], ts[|ts| - 1];
      SeenMeaning(baseline, init, tp, c);
      var before, after := ActiveAfter(baseline, init), ActiveAfter(baseline, ts);
      MarkedByMeaning(t, after, tp, c);
      MarkedSnoc(Trace(baseline, init), Moment(before, t, after), tp, c);
    }
  }

  /** The whole run, read directly: which category the stream deserves. */
  ghost function DeservedCategory(baseline: Instances, ts: seq<RouteTransition>, tp: TransitPredicate): StreamCategory {
    var tr := Trace(baseline, ts);
    if exists i :: 0 <= i < |tr| && Empties(tr[i]) then Withdrawn
    else if Marked(tr, tp, DepartedTransitPath) then DepartedTransitPath
    else if Marked(tr, tp, PathChangedStillViaTransit) then PathChangedStillViaTransit
    else if Marked(tr, tp, PrependOnly) then PrependOnly
    else Unchanged
  }

  lemma CategoryMeaning(baseline: Instances, ts: seq<RouteTransition>, tp: TransitPredicate)
    ensures CategoryOf(Simulate(baseline, ts, tp)) == DeservedCategory(baseline, ts, tp)
  {
    CountersMeaning(baseline, ts, tp);
    TimesPositive(Trace(baseline, ts), Empties);
    SeenMeaning(baseline, ts, tp, DepartedTransitPath);
    SeenMeaning(baseline, ts, tp, PathChangedStillViaTransit);
    SeenMeaning(baseline, ts, tp, PrependOnly);
  }

  /** With something to lose, `Withdrawn` means that the stream was absent at some point. */
  lemma {:induction false} WithdrawnMeansAbsentOnce(baseline: Instances, ts: seq<RouteTransition>, tp: TransitPredicate)
    requires baseline != map[]
    ensures CategoryOf(Simulate(baseline, ts, tp)) == Withdrawn <==>
      exists i :: 0 <= i <= |ts| && ActiveAfter(baseline, ts[..i]) == map[]
  {
    CategoryMeaning(baseline, ts, tp);
    var tr := Trace(baseline, ts);
    if i :| 0 <= i < |tr| && Empties(tr[i]) {
      TraceAt(baseline, ts, i);
      assert ActiveAfter(baseline, ts[..i + 1]) == map[];
    }
    if i :| 0 <= i <= |ts| && ActiveAfter(baseline, ts[..i]) == map[] {
      FirstAbsence(baseline, ts, i);
    }
  }

  lemma {:induction false} FirstAbsence(baseline: Instances, ts: seq<RouteTransition>, i: nat)
    requires baseline != map[] && i <= |ts| && ActiveAfter(baseline, ts[..i]) == map[]
    ensures exists k :: 0 <= k < i && Empties(Trace(baseline, ts)[k])
  {
    assert i > 0;
    if ActiveAfter(baseline, ts[..i - 1]) == map[] {
      FirstAbsence(baseline, ts, i - 1);
    } else {
      TraceAt(baseline, ts, i - 1);
      assert ts[..i][..i - 1] == ts[..i - 1];
      assert Empties(Trace(baseline, ts)[i - 1]);
    }
  }

  /** The mild categories promise that the stream was on transit after every transition. */
  lemma {:induction false} MildCategoriesStayOnTransit(
      baseline: Instances, ts: seq<RouteTransition>, tp: TransitPredicate, i: nat)
    requires baseline != map[] && i < |ts|
    requires CategoryOf(Simulate(baseline, ts, tp)) in {Unchanged, PrependOnly, PathChangedStillViaTransit}
    ensures ActiveAfter(baseline, ts[..i + 1]) != map[] && AnyMatching(ActiveAfter(baseline, ts[..i + 1]), tp)
  {
    CategoryMeaning(baseline, ts, tp);
    WithdrawnMeansAbsentOnce(baseline, ts, tp);
    TraceAt(baseline, ts, i);
    assert ActiveAfter(baseline, ts[..i + 1]) != map[];
    assert !Marks(Trace(baseline, ts)[i].t, Trace(baseline, ts)[i].after, tp, DepartedTransitPath);
  }

  // ---- The end of the window ----

  /** Exactly when a stream counts as not restored, for any baseline whatsoever. */
  lemma {:induction false} NotRestoredMeaning(baseline: Instances, ts: seq<RouteTransition>, tp: TransitPredicate)
    ensures
      var s := Simulate(baseline, ts, tp);
      NotRestored(s, tp) <==>
        && !AnyMatching(s.active, tp)
        && (if s.active == map[] then exists i :: 0 <= i < |ts| && Empties(Trace(baseline, ts)[i]) else ts != [])
  {
    var s, tr := Simulate(baseline, ts, tp), Trace(baseline, ts);
    CountersMeaning(baseline, ts, tp);
    TimesPositive(tr, Empties);
    SeenMeaning(baseline, ts, tp, DepartedTransitPath);
    if s.active != map[] && !AnyMatching(s.active, tp) {
      if ts == [] {
        assert tr == [];
      } else {
        TraceAt(baseline, ts, |ts| - 1);
        assert ts[..|ts| - 1 + 1] == ts;
        assert Marks(tr[|ts| - 1].t, tr[|ts| - 1].after, tp, DepartedTransitPath);
      }
    }
  }

  /** For an admitted stream `not_restored` is simply: nothing active satisfies the predicate. */
  lemma AdmittedNotRestored(baseline: Instances, ts: seq<RouteTransition>, tp: TransitPredicate)
    requires AnyMatching(baseline, tp)
    ensures
      var s := Simulate(baseline, ts, tp);
      && (NotRestored(s, tp) <==> !AnyMatching(s.active, tp))
      && (s.ledger.restorationCount > 0 && !NotRestored(s, tp) ==> s.active != map[] && AnyMatching(s.active, tp))
  {
    NotRestoredMeaning(baseline, ts, tp);
    if ActiveAfter(baseline, ts) == map[] {
      assert baseline != map[];
      assert ts[..|ts|] == ts;
      FirstAbsence(baseline, ts, |ts|);
    }
  }

  // ---- Restoration kinds ----

  lemma SingletonCounts<K, V>(k: K, v: V, w: V)
    ensures CountValue(map[k := v], w) == One(v == w)
  {
    var m := map[k := v];
    assert (set x | x in m && m[x] == w) == if v == w then {k} else {};
  }

  lemma CountsOfOneAreAll<K, V>(m: map<K, V>, v: V)
    requires forall w :: CountValue(m, w) == One(v == w)
    ensures |m| == 1 && exists x :: x in m && m[x] == v
  {
    var same := set x | x in m && m[x] == v;
    assert |same| == CountValue(m, v) == 1;
    forall x | x in m ensures x in same {
      var matching := set y | y in m && m[y] == m[x];
      assert x in matching;
      assert |matching| == CountValue(m, m[x]);
    }
    assert m.Keys == same;
    var x :| x in same;
  }

  lemma OneEntryCounts<K, V>(m: map<K, V>, v: V, w: V)
    requires |m| == 1 && exists x :: x in m && m[x] == v
    ensures CountValue(m, w) == One(v == w)
  {
    var x :| x in m && m[x] == v;
    assert |m.Keys - {x}| == 0;
    assert m == map[x := v];
    SingletonCounts(x, v, w);
  }

  ghost predicate SomeLike(m: Instances, fp: string) {
    exists x :: x in m && SemanticFingerprint(m[x].attributes) == fp
  }

  lemma FingerprintsOfOne(k: RouteKey, s: RouteState, fp: string)
    ensures FingerprintCount(map[k := s], fp) == One(SemanticFingerprint(s.attributes) == fp)
  {
    assert FingerprintsOf(map[k := s]) == map[k := SemanticFingerprint(s.attributes)];
    SingletonCounts(k, SemanticFingerprint(s.attributes), fp);
  }

  lemma SameAsOne(m: Instances, mine: string)
    requires forall fp :: FingerprintCount(m, fp) == One(mine == fp)
    ensures |m| == 1 && SomeLike(m, mine)
  {
    var fps := FingerprintsOf(m);
    assert fps.Keys == m.Keys;
    assert |fps| == |fps.Keys| == |m.Keys| == |m|;
    forall fp ensures CountValue(fps, fp) == One(mine == fp) {
      assert FingerprintCount(m, fp) == One(mine == fp);
    }
    CountsOfOneAreAll(fps, mine);
  }

  lemma OneLike(m: Instances, mine: string, fp: string)
    requires |m| == 1 && SomeLike(m, mine)
    ensures FingerprintCount(m, fp) == One(mine == fp)
  {
    var fps := FingerprintsOf(m);
    assert fps.Keys == m.Keys;
    assert |fps| == |fps.Keys| == |m.Keys| == |m|;
    var x :| x in m && SemanticFingerprint(m[x].attributes) == mine;
    assert x in fps && fps[x] == mine;
    OneEntryCounts(fps, mine, fp);
  }

  /** A single route repeats a map's fingerprints exactly when the map is a single like route. */
  lemma SameFingerprintsSingleton(m: Instances, k: RouteKey, s: RouteState)
    ensures SameFingerprints(m, map[k := s]) <==> |m| == 1 && SomeLike(m, SemanticFingerprint(s.attributes))
  {
    var mine := SemanticFingerprint(s.attributes);
    forall fp ensures FingerprintCount(map[k := s], fp) == One(mine == fp) {
      FingerprintsOfOne(k, s, fp);
    }
    if SameFingerprints(m, map[k := s]) {
      SameAsOne(m, mine);
    }
    if |m| == 1 && SomeLike(m, mine) {
      forall fp ensures FingerprintCount(m, fp) == One(mine == fp) {
        OneLike(m, mine, fp);
      }
    }
  }

  /** `baseline_set` at a restoration: the returning route alone is the whole baseline. */
  lemma BaselineSetMeaning(t: RouteTransition, history: seq<(RouteKey, RouteState)>, baseline: Instances)
    requires t.to.Some?
    ensures
      var r := Classified(t, history, baseline, map[t.key := t.to.value]);
      r.baselineSet <==> |baseline| == 1 && r.equivalentRoute
  {
    SameFingerprintsSingleton(baseline, t.key, t.to.value);
    forall x | x in baseline {
      FingerprintIsSemantics(baseline[x].attributes, t.to.value.attributes);
    }
  }

  lemma ReturningAlone(before: Instances, t: RouteTransition)
    requires ComesBackTo(before, Acted(before, t))
    ensures Applies(t) && Acted(before, t) == map[t.key := t.to.value]
  {
  }
}
