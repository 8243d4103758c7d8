/** A lifecycle record field by field, in terms of the run's transitions and of what is active between them. */
module Records {
  import opened Prelude
  import opened Seqs
  import opened Routes
  import opened Lifecycle
  import opened LifecycleProofs
  import opened LifecycleRuns
  import opened LifecycleHistory
  import opened Restorations

  // ---- What happens at a transition ----

  /** A withdrawal after which nothing is active. */
  ghost predicate EmptiesAt(baseline: Instances, ts: seq<RouteTransition>, i: int) {
    0 <= i < |ts| && ts[i].kind == Withdrawal && ActiveAfter(baseline, ts[..i + 1]) == map[]
  }

  /** Nothing was active before, and something is afterwards. */
  ghost predicate VisibleAgainAt(baseline: Instances, ts: seq<RouteTransition>, i: int) {
    && 0 <= i < |ts|
    && ActiveAfter(baseline, ts[..i]) == map[] && ActiveAfter(baseline, ts[..i + 1]) != map[]
  }

  ghost predicate SomeMatching(active: Instances, tp: TransitPredicate) {
    exists k :: k in active && tp.Evaluate(active[k].attributes.asPath)
  }

  /** A path replacement between two routes. */
  predicate Replaced(t: RouteTransition) { t.kind.PathReplacement? && t.from.Some? && t.to.Some? }

  function OldPath(t: RouteTransition): seq<U32> { if t.from.Some? then t.from.value.attributes.asPath else [] }

  function NewPath(t: RouteTransition): seq<U32> { if t.to.Some? then t.to.value.attributes.asPath else [] }

  /** The routes differ in more than the order of their communities. */
  predicate Differs(t: RouteTransition) {
    t.from.Some? && t.to.Some? && (
      t.from.value.attributes.(communities := []) != t.to.value.attributes.(communities := [])
      || multiset(t.from.value.attributes.communities) != multiset(t.to.value.attributes.communities))
  }

  /** Prepending apart, the path is another. */
  predicate Reroutes(t: RouteTransition) { Replaced(t) && Collapse(OldPath(t)) != Collapse(NewPath(t)) }

  predicate Prepends(t: RouteTransition) {
    Replaced(t) && Differs(t) && Collapse(OldPath(t)) == Collapse(NewPath(t))
  }

  predicate LeavesTransit(t: RouteTransition, tp: TransitPredicate) {
    Reroutes(t) && tp.Evaluate(OldPath(t)) && !tp.Evaluate(NewPath(t))
  }

  predicate StaysOnTransit(t: RouteTransition, tp: TransitPredicate) {
    Reroutes(t) && tp.Evaluate(OldPath(t)) && tp.Evaluate(NewPath(t))
  }

  predicate ReachesTransit(t: RouteTransition, tp: TransitPredicate) {
    Reroutes(t) && !tp.Evaluate(OldPath(t)) && tp.Evaluate(NewPath(t))
  }

  /** Which shape a transition has. */
  lemma ShapeMeaning(t: RouteTransition, tp: TransitPredicate)
    ensures ShapeOf(t, tp) == Some(PrependReduced) <==> Prepends(t) && |OldPath(t)| > |NewPath(t)|
    ensures ShapeOf(t, tp) == Some(PrependIncreased) <==> Prepends(t) && |OldPath(t)| <= |NewPath(t)|
    ensures ShapeOf(t, tp) == Some(PathDepartedRequiredTransit) <==> LeavesTransit(t, tp)
    ensures ShapeOf(t, tp) == Some(PathChangedStillViaRequiredTransit) <==> StaysOnTransit(t, tp)
    ensures ShapeOf(t, tp) == Some(PathReturnedToRequiredTransit) <==> ReachesTransit(t, tp)
    ensures ShapeOf(t, tp) == Some(GenericPathChange) <==>
      Reroutes(t) && !tp.Evaluate(OldPath(t)) && !tp.Evaluate(NewPath(t))
    ensures ShapeOf(t, tp) == None <==> !Reroutes(t) && !Prepends(t)
  {
    if Replaced(t) {
      SemanticEqualityMeaning(t.from.value.attributes, t.to.value.attributes);
    }
  }

  // ---- Moments and indices ----

  lemma {:induction false} MomentsMean(baseline: Instances, ts: seq<RouteTransition>, i: nat)
    requires i < |ts|
    ensures
      var m := Trace(baseline, ts)[i];
      && m.t == ts[i]
      && m.before == ActiveAfter(baseline, ts[..i]) && m.after == ActiveAfter(baseline, ts[..i + 1])
      && (Empties(m) <==> EmptiesAt(baseline, ts, i))
      && (ComesBack(m) <==> VisibleAgainAt(baseline, ts, i))
  {
    TraceAt(baseline, ts, i);
  }

  lemma {:induction false} AllMomentsMean(baseline: Instances, ts: seq<RouteTransition>)
    ensures forall i :: 0 <= i < |ts| ==> (Empties(Trace(baseline, ts)[i]) <==> EmptiesAt(baseline, ts, i))
    ensures forall i :: 0 <= i < |ts| ==> (ComesBack(Trace(baseline, ts)[i]) <==> VisibleAgainAt(baseline, ts, i))
  {
    forall i: nat | i < |ts|
      ensures Empties(Trace(baseline, ts)[i]) <==> EmptiesAt(baseline, ts, i)
      ensures ComesBack(Trace(baseline, ts)[i]) <==> VisibleAgainAt(baseline, ts, i)
    {
      MomentsMean(baseline, ts, i);
    }
  }

  ghost predicate TwoOf(tr: seq<Moment>, p: Moment -> bool) {
    exists i, j :: 0 <= i < j < |tr| && p(tr[i]) && p(tr[j])
  }

  lemma {:induction false} MoreThanOne(tr: seq<Moment>, p: Moment -> bool)
    ensures Times(tr, p) > 1 <==> TwoOf(tr, p)
  {
    if tr != [] {
      var init, m := tr[..|tr| - 1], tr[|tr| - 1];
      MoreThanOne(init, p);
      assert tr == init + [m];
      FilterSnoc(init, m, p);
      TimesPositive(init, p);
      if TwoOf(init, p) {
        var i, j :| 0 <= i < j < |init| && p(init[i]) && p(init[j]);
        assert p(tr[i]) && p(tr[j]);
      }
      if p(m) && Times(init, p) > 0 {
        var i :| 0 <= i < |init| && p(init[i]);
        assert p(tr[i]) && p(tr[|tr| - 1]);
      }
      if TwoOf(tr, p) {
        var i, j :| 0 <= i < j < |tr| && p(tr[i]) && p(tr[j]);
        assert p(init[i]) && (j < |init| ==> p(init[j]));
      }
    }
  }

  // ---- Flags ----

  ghost predicate EmptiesTwice(baseline: Instances, ts: seq<RouteTransition>) {
    exists i, j :: i < j && EmptiesAt(baseline, ts, i) && EmptiesAt(baseline, ts, j)
  }

  ghost predicate EmptiesEver(baseline: Instances, ts: seq<RouteTransition>) {
    exists i :: EmptiesAt(baseline, ts, i)
  }

  ghost predicate VisibleAgainTwice(baseline: Instances, ts: seq<RouteTransition>) {
    exists i, j :: i < j && VisibleAgainAt(baseline, ts, i) && VisibleAgainAt(baseline, ts, j)
  }

  ghost predicate VisibleAgainEver(baseline: Instances, ts: seq<RouteTransition>) {
    exists i :: VisibleAgainAt(baseline, ts, i)
  }

  lemma {:induction false} CountedTwoEmptied(baseline: Instances, ts: seq<RouteTransition>, tp: TransitPredicate)
    ensures LedgerAfter(baseline, ts, tp).withdrawalCount > 0 <==> EmptiesEver(baseline, ts)
    ensures LedgerAfter(baseline, ts, tp).withdrawalCount > 1 <==> EmptiesTwice(baseline, ts)
  {
    var tr := Trace(baseline, ts);
    CountersMeaning(baseline, ts, tp);
    AllMomentsMean(baseline, ts);
    TimesPositive(tr, Empties);
    MoreThanOne(tr, Empties);
    if EmptiesTwice(baseline, ts) {
      var i, j :| i < j && EmptiesAt(baseline, ts, i) && EmptiesAt(baseline, ts, j);
      assert Empties(tr[i]) && Empties(tr[j]);
    }
    if EmptiesEver(baseline, ts) {
      var i :| EmptiesAt(baseline, ts, i);
      assert Empties(tr[i]);
    }
  }

  lemma {:induction false} CountedTwoVisible(baseline: Instances, ts: seq<RouteTransition>, tp: TransitPredicate)
    ensures LedgerAfter(baseline, ts, tp).restorationCount > 0 <==> VisibleAgainEver(baseline, ts)
    ensures LedgerAfter(baseline, ts, tp).restorationCount > 1 <==> VisibleAgainTwice(baseline, ts)
  {
    var tr := Trace(baseline, ts);
    CountersMeaning(baseline, ts, tp);
    AllMomentsMean(baseline, ts);
    TimesPositive(tr, ComesBack);
    MoreThanOne(tr, ComesBack);
    if VisibleAgainTwice(baseline, ts) {
      var i, j :| i < j && VisibleAgainAt(baseline, ts, i) && VisibleAgainAt(baseline, ts, j);
      assert ComesBack(tr[i]) && ComesBack(tr[j]);
    }
    if VisibleAgainEver(baseline, ts) {
      var i :| VisibleAgainAt(baseline, ts, i);
      assert ComesBack(tr[i]);
    }
  }

  lemma RecordFlags(
      lc: StreamLifecycle, stream: StreamKey, baseline: Instances, ts: seq<RouteTransition>, cooldownEnd: int,
      tp: TransitPredicate)
    requires IsLifecycle(lc, stream, baseline, ts, cooldownEnd, tp)
    ensures lc.flags == FlagsOf(Simulate(baseline, ts, tp), Ambiguous(baseline, ts), tp)
    ensures lc.category == CategoryOf(Simulate(baseline, ts, tp))
  {
  }

  /** Several cycles: emptied twice, or emptied once and visible again twice. */
  lemma CyclesMeaning(
      lc: StreamLifecycle, stream: StreamKey, baseline: Instances, ts: seq<RouteTransition>, cooldownEnd: int,
      tp: TransitPredicate)
    requires IsLifecycle(lc, stream, baseline, ts, cooldownEnd, tp)
    ensures lc.flags.multipleCycles <==>
      EmptiesTwice(baseline, ts) || (EmptiesEver(baseline, ts) && VisibleAgainTwice(baseline, ts))
    ensures baseline != map[] ==> (lc.flags.multipleCycles <==> EmptiesTwice(baseline, ts))
  {
    RecordFlags(lc, stream, baseline, ts, cooldownEnd, tp);
    CountedTwoEmptied(baseline, ts, tp);
    CountedTwoVisible(baseline, ts, tp);
    WithdrawalLedger(baseline, ts, tp);
  }

  /** Some record of the stream, in the baseline or the run, has a path identifier; or has none. */
  ghost predicate KeyedSomewhere(baseline: Instances, ts: seq<RouteTransition>, keyed: bool) {
    || (exists k :: k in baseline && k.pathId.Some? == keyed)
    || (exists i :: 0 <= i < |ts| && ts[i].key.pathId.Some? == keyed)
  }

  lemma KeyedMeans(baseline: Instances, ts: seq<RouteTransition>)
    ensures KeyedSomewhere(baseline, ts, true) <==>
      (exists k :: k in baseline && Keyed(k)) || (exists i :: 0 <= i < |ts| && Keyed(ts[i].key))
  {
    if k :| k in baseline && Keyed(k) { assert k.pathId.Some? == true; }
    if i :| 0 <= i < |ts| && Keyed(ts[i].key) { assert ts[i].key.pathId.Some? == true; }
  }

  lemma UnkeyedMeans(baseline: Instances, ts: seq<RouteTransition>)
    ensures KeyedSomewhere(baseline, ts, false) <==>
      (exists k :: k in baseline && !Keyed(k)) || (exists i :: 0 <= i < |ts| && !Keyed(ts[i].key))
  {
    if k :| k in baseline && !Keyed(k) { assert k.pathId.Some? == false; }
    if i :| 0 <= i < |ts| && !Keyed(ts[i].key) { assert ts[i].key.pathId.Some? == false; }
  }

  /** Ambiguous: records with and without path identifiers both occur. */
  lemma AmbiguityMeaning(
      lc: StreamLifecycle, stream: StreamKey, baseline: Instances, ts: seq<RouteTransition>, cooldownEnd: int,
      tp: TransitPredicate)
    requires IsLifecycle(lc, stream, baseline, ts, cooldownEnd, tp)
    ensures lc.flags.addPathAmbiguous <==>
      KeyedSomewhere(baseline, ts, true) && KeyedSomewhere(baseline, ts, false)
  {
    RecordFlags(lc, stream, baseline, ts, cooldownEnd, tp);
    KeyedMeans(baseline, ts);
    UnkeyedMeans(baseline, ts);
  }

  /** Nothing matches at the end although something happened: it was emptied, or is off the transit. */
  ghost predicate EndsLost(baseline: Instances, ts: seq<RouteTransition>, tp: TransitPredicate) {
    var end := ActiveAfter(baseline, ts);
    !SomeMatching(end, tp) && if end == map[] then EmptiesEver(baseline, ts) else ts != []
  }

  lemma NotRestoredExactly(baseline: Instances, ts: seq<RouteTransition>, tp: TransitPredicate)
    ensures NotRestored(Simulate(baseline, ts, tp), tp) <==> EndsLost(baseline, ts, tp)
  {
    var tr := Trace(baseline, ts);
    NotRestoredMeaning(baseline, ts, tp);
    MatchingMeans(ActiveAfter(baseline, ts), tp);
    CountersMeaning(baseline, ts, tp);
    TimesPositive(tr, Empties);
    CountedTwoEmptied(baseline, ts, tp);
  }

  /** Not restored: lost at the end. Restored: visible again at some point, and not lost at the end. */
  lemma RestorationFlagsMeaning(
      lc: StreamLifecycle, stream: StreamKey, baseline: Instances, ts: seq<RouteTransition>, cooldownEnd: int,
      tp: TransitPredicate)
    requires IsLifecycle(lc, stream, baseline, ts, cooldownEnd, tp)
    ensures lc.flags.notRestored <==> EndsLost(baseline, ts, tp)
    ensures lc.flags.restored <==> VisibleAgainEver(baseline, ts) && !EndsLost(baseline, ts, tp)
  {
    RecordFlags(lc, stream, baseline, ts, cooldownEnd, tp);
    NotRestoredExactly(baseline, ts, tp);
    CountedTwoVisible(baseline, ts, tp);
  }

  lemma MatchingMeans(active: Instances, tp: TransitPredicate)
    ensures AnyMatching(active, tp) <==> SomeMatching(active, tp)
  {
    if k :| k in active && Via(tp, active[k]) { assert tp.Evaluate(active[k].attributes.asPath); }
    if k :| k in active && tp.Evaluate(active[k].attributes.asPath) { assert Via(tp, active[k]); }
  }

  // ---- The category ----

  /** Left off the transit by this transition: visible without a match, or one route gone elsewhere. */
  ghost predicate DepartsAt(baseline: Instances, ts: seq<RouteTransition>, tp: TransitPredicate, i: int) {
    0 <= i < |ts| && (
      LeavesTransit(ts[i], tp)
      || (ActiveAfter(baseline, ts[..i + 1]) != map[] && !SomeMatching(ActiveAfter(baseline, ts[..i + 1]), tp)))
  }

  lemma {:induction false} MarksMean(baseline: Instances, ts: seq<RouteTransition>, tp: TransitPredicate, i: nat)
    requires i < |ts|
    ensures
      var m := Trace(baseline, ts)[i];
      && (Marks(m.t, m.after, tp, DepartedTransitPath) <==> DepartsAt(baseline, ts, tp, i))
      && (Marks(m.t, m.after, tp, PathChangedStillViaTransit) <==> StaysOnTransit(ts[i], tp))
      && (Marks(m.t, m.after, tp, PrependOnly) <==> Prepends(ts[i]))
  {
    MomentsMean(baseline, ts, i);
    ShapeMeaning(ts[i], tp);
    MatchingMeans(ActiveAfter(baseline, ts[..i + 1]), tp);
  }

  ghost predicate DepartsEver(baseline: Instances, ts: seq<RouteTransition>, tp: TransitPredicate) {
    exists i :: DepartsAt(baseline, ts, tp, i)
  }

  ghost predicate StaysEver(ts: seq<RouteTransition>, tp: TransitPredicate) {
    exists i :: 0 <= i < |ts| && StaysOnTransit(ts[i], tp)
  }

  ghost predicate PrependsEver(ts: seq<RouteTransition>) {
    exists i :: 0 <= i < |ts| && Prepends(ts[i])
  }

  lemma {:induction false} DepartureMarked(baseline: Instances, ts: seq<RouteTransition>, tp: TransitPredicate)
    ensures Marked(Trace(baseline, ts), tp, DepartedTransitPath) <==> DepartsEver(baseline, ts, tp)
  {
    var tr := Trace(baseline, ts);
    forall i: nat | i < |ts|
      ensures Marks(tr[i].t, tr[i].after, tp, DepartedTransitPath) <==> DepartsAt(baseline, ts, tp, i)
    {
      MarksMean(baseline, ts, tp, i);
    }
    if i :| DepartsAt(baseline, ts, tp, i) { assert Marks(tr[i].t, tr[i].after, tp, DepartedTransitPath); }
  }

  lemma {:induction false} ChangeMarked(baseline: Instances, ts: seq<RouteTransition>, tp: TransitPredicate)
    ensures Marked(Trace(baseline, ts), tp, PathChangedStillViaTransit) <==> StaysEver(ts, tp)
  {
    var tr := Trace(baseline, ts);
    forall i: nat | i < |ts|
      ensures Marks(tr[i].t, tr[i].after, tp, PathChangedStillViaTransit) <==> StaysOnTransit(ts[i], tp)
    {
      MarksMean(baseline, ts, tp, i);
    }
    if i :| 0 <= i < |ts| && StaysOnTransit(ts[i], tp) {
      assert Marks(tr[i].t, tr[i].after, tp, PathChangedStillViaTransit);
    }
  }

  lemma {:induction false} PrependingMarked(baseline: Instances, ts: seq<RouteTransition>, tp: TransitPredicate)
    ensures Marked(Trace(baseline, ts), tp, PrependOnly) <==> PrependsEver(ts)
  {
    var tr := Trace(baseline, ts);
    forall i: nat | i < |ts| ensures Marks(tr[i].t, tr[i].after, tp, PrependOnly) <==> Prepends(ts[i]) {
      MarksMean(baseline, ts, tp, i);
    }
    if i :| 0 <= i < |ts| && Prepends(ts[i]) { assert Marks(tr[i].t, tr[i].after, tp, PrependOnly); }
  }

  /** The category of a record, the strongest first; and whether prepending changed. */
  lemma {:induction false} CategoryExactly(
      lc: StreamLifecycle, stream: StreamKey, baseline: Instances, ts: seq<RouteTransition>, cooldownEnd: int,
      tp: TransitPredicate)
    requires IsLifecycle(lc, stream, baseline, ts, cooldownEnd, tp)
    ensures lc.category ==
      if EmptiesEver(baseline, ts) then StreamCategory.Withdrawn
      else if DepartsEver(baseline, ts, tp) then DepartedTransitPath
      else if StaysEver(ts, tp) then PathChangedStillViaTransit
      else if PrependsEver(ts) then PrependOnly
      else Unchanged
    ensures lc.wasWithdrawn <==> EmptiesEver(baseline, ts)
  {
    RecordFlags(lc, stream, baseline, ts, cooldownEnd, tp);
    ConclusionFields(lc, stream, baseline, Simulate(baseline, ts, tp), Ambiguous(baseline, ts), cooldownEnd, tp);
    CategoryMeaning(baseline, ts, tp);
    DepartureMarked(baseline, ts, tp);
    ChangeMarked(baseline, ts, tp);
    PrependingMarked(baseline, ts, tp);
    CountedTwoEmptied(baseline, ts, tp);
    CountersMeaning(baseline, ts, tp);
    TimesPositive(Trace(baseline, ts), Empties);
  }

  lemma {:induction false} PrependingNoted(baseline: Instances, ts: seq<RouteTransition>, tp: TransitPredicate)
    ensures FindingsAfter(baseline, ts, tp).prependingChanged <==>
      PrependOnly in FindingsAfter(baseline, ts, tp).seenCategories
  {
    if ts != [] {
      PrependingNoted(baseline, ts[..|ts| - 1], tp);
    }
  }

  lemma PrependingMeaning(
      lc: StreamLifecycle, stream: StreamKey, baseline: Instances, ts: seq<RouteTransition>, cooldownEnd: int,
      tp: TransitPredicate)
    requires IsLifecycle(lc, stream, baseline, ts, cooldownEnd, tp)
    ensures lc.prependingChanged <==> PrependsEver(ts)
  {
    assert lc.prependingChanged == FindingsAfter(baseline, ts, tp).prependingChanged;
    PrependingNoted(baseline, ts, tp);
    SeenMeaning(baseline, ts, tp, PrependOnly);
    PrependingMarked(baseline, ts, tp);
  }

  // ---- Times ----

  /** The time of the first transition of which it holds. */
  ghost predicate IsFirstTime(o: Option<int>, ts: seq<RouteTransition>, holds: int -> bool) {
    match o
    case None => forall i :: 0 <= i < |ts| ==> !holds(i)
    case Some(time) =>
      exists i :: 0 <= i < |ts| && holds(i) && time == ts[i].Time() && forall j :: 0 <= j < i ==> !holds(j)
  }

  ghost predicate IsLastTime(o: Option<int>, ts: seq<RouteTransition>, holds: int -> bool) {
    match o
    case None => forall i :: 0 <= i < |ts| ==> !holds(i)
    case Some(time) =>
      exists i :: 0 <= i < |ts| && holds(i) && time == ts[i].Time() && forall j :: i < j < |ts| ==> !holds(j)
  }

  lemma {:induction false} FirstMatchTime(
      baseline: Instances, ts: seq<RouteTransition>, p: Moment -> bool, holds: int -> bool)
    requires forall i :: 0 <= i < |ts| ==> (p(Trace(baseline, ts)[i]) <==> holds(i))
    ensures IsFirstTime(TimeOfMatch(FirstMatch(Trace(baseline, ts), p)), ts, holds)
  {
    var tr := Trace(baseline, ts);
    FirstMatchMeaning(tr, p);
    if FirstMatch(tr, p).Some? {
      var i :| 0 <= i < |tr| && p(tr[i]) && FirstMatch(tr, p) == Some(tr[i]) && forall j :: 0 <= j < i ==> !p(tr[j]);
      TraceAt(baseline, ts, i);
      assert holds(i);
    }
  }

  lemma {:induction false} LastMatchTime(
      baseline: Instances, ts: seq<RouteTransition>, p: Moment -> bool, holds: int -> bool)
    requires forall i :: 0 <= i < |ts| ==> (p(Trace(baseline, ts)[i]) <==> holds(i))
    ensures IsLastTime(TimeOfMatch(LastMatch(Trace(baseline, ts), p)), ts, holds)
  {
    var tr := Trace(baseline, ts);
    LastMatchMeaning(tr, p);
    if LastMatch(tr, p).Some? {
      var i :| 0 <= i < |tr| && p(tr[i]) && LastMatch(tr, p) == Some(tr[i]) && forall j :: i < j < |tr| ==> !p(tr[j]);
      TraceAt(baseline, ts, i);
      assert holds(i);
    }
  }

  ghost function InEventPhase(ts: seq<RouteTransition>): int -> bool {
    (i: int) => 0 <= i < |ts| && ts[i].phase == Event
  }

  /** Visible again, or back on the transit. */
  ghost function BringsBack(baseline: Instances, ts: seq<RouteTransition>, tp: TransitPredicate): int -> bool {
    (i: int) => 0 <= i < |ts| && (VisibleAgainAt(baseline, ts, i) || ReachesTransit(ts[i], tp))
  }

  ghost function EmptiesFrom(baseline: Instances, ts: seq<RouteTransition>): int -> bool {
    (i: int) => EmptiesAt(baseline, ts, i)
  }

  /** First change, restoration and last emptying withdrawal of a record, and how long it was affected. */
  lemma {:induction false} TimesMeaning(
      lc: StreamLifecycle, stream: StreamKey, baseline: Instances, ts: seq<RouteTransition>, cooldownEnd: int,
      tp: TransitPredicate)
    requires IsLifecycle(lc, stream, baseline, ts, cooldownEnd, tp)
    ensures IsFirstTime(lc.firstChange, ts, InEventPhase(ts))
    ensures IsFirstTime(lc.restorationTime, ts, BringsBack(baseline, ts, tp))
    ensures IsLastTime(lc.streamWithdrawalTime, ts, EmptiesFrom(baseline, ts))
  {
    RecordMeaning(lc, stream, baseline, ts, cooldownEnd, tp);
    forall i: nat | i < |ts|
      ensures IsEventChange(Trace(baseline, ts)[i]) <==> InEventPhase(ts)(i)
      ensures Restores(tp)(Trace(baseline, ts)[i]) <==> BringsBack(baseline, ts, tp)(i)
      ensures Empties(Trace(baseline, ts)[i]) <==> EmptiesFrom(baseline, ts)(i)
    {
      MomentsMean(baseline, ts, i);
      ShapeMeaning(ts[i], tp);
    }
    FirstMatchTime(baseline, ts, IsEventChange, InEventPhase(ts));
    FirstMatchTime(baseline, ts, Restores(tp), BringsBack(baseline, ts, tp));
    LastMatchTime(baseline, ts, Empties, EmptiesFrom(baseline, ts));
  }

  /** From the first change to the restoration or the end, in whole seconds, never negative. */
  lemma {:induction false} AffectedMeaning(
      lc: StreamLifecycle, stream: StreamKey, baseline: Instances, ts: seq<RouteTransition>, cooldownEnd: int,
      tp: TransitPredicate)
    requires IsLifecycle(lc, stream, baseline, ts, cooldownEnd, tp)
    ensures lc.affectedDurationSecs.None? <==> lc.firstChange.None?
    ensures lc.firstChange.Some? ==>
      var end := if lc.restorationTime.Some? then lc.restorationTime.value else cooldownEnd;
      var lasted, secs := end - lc.firstChange.value, lc.affectedDurationSecs.value;
      if lasted >= 0 then secs * 1_000_000_000 <= lasted < (secs + 1) * 1_000_000_000 else secs == 0
  {
    ConclusionFields(lc, stream, baseline, Simulate(baseline, ts, tp), Ambiguous(baseline, ts), cooldownEnd, tp);
    ConclusionDurations(lc, stream, baseline, Simulate(baseline, ts, tp), Ambiguous(baseline, ts), cooldownEnd, tp);
    if lc.firstChange.Some? {
      var end := if lc.restorationTime.Some? then lc.restorationTime.value else cooldownEnd;
      NumSecondsMeaning(end - lc.firstChange.value);
    }
  }

  // ---- Routes ----

  /** The transition sets a route. */
  predicate Sets(t: RouteTransition) { t.kind != Withdrawal && t.to.Some? }

  /** The route that the last withdrawal or set route of the run left, if that was a route. */
  ghost predicate IsFinalState(o: Option<RouteState>, ts: seq<RouteTransition>) {
    match o
    case Some(s) =>
      exists i :: 0 <= i < |ts| && Sets(ts[i]) && ts[i].to == Some(s)
        && forall j :: i < j < |ts| ==> ts[j].kind != Withdrawal && ts[j].to.None?
    case None =>
      forall i :: 0 <= i < |ts| && Sets(ts[i]) ==> exists j :: i < j < |ts| && ts[j].kind == Withdrawal
  }

  lemma {:induction false} FinalStateMeaning(baseline: Instances, ts: seq<RouteTransition>, tp: TransitPredicate)
    ensures IsFinalState(FindingsAfter(baseline, ts, tp).finalState, ts)
  {
    if ts != [] {
      var n := |ts| - 1;
      var init, t := ts[..n], ts[n];
      FinalStateMeaning(baseline, init, tp);
      var before, after := FindingsAfter(baseline, init, tp).finalState, FindingsAfter(baseline, ts, tp).finalState;
      assert after == if t.kind == Withdrawal then None else if t.to.Some? then t.to else before;
      FinalStateStep(before, ts);
    }
  }

  lemma FinalStateStep(before: Option<RouteState>, ts: seq<RouteTransition>)
    requires ts != [] && IsFinalState(before, ts[..|ts| - 1])
    ensures
      var t := ts[|ts| - 1];
      IsFinalState(if t.kind == Withdrawal then None else if t.to.Some? then t.to else before, ts)
  {
    var n := |ts| - 1;
    var init, t := ts[..n], ts[n];
    assert forall i :: 0 <= i < n ==> init[i] == ts[i];
    if t.kind == Withdrawal {
      assert ts[n].kind == Withdrawal;
    } else if t.to.Some? {
      assert Sets(ts[n]) && ts[n].to == t.to;
    } else if before.Some? {
      var i :| 0 <= i < |init| && Sets(init[i]) && init[i].to == before
        && forall j :: i < j < |init| ==> init[j].kind != Withdrawal && init[j].to.None?;
      assert Sets(ts[i]) && ts[i].to == before;
    } else {
      forall i | 0 <= i < |ts| && Sets(ts[i]) ensures exists j :: i < j < |ts| && ts[j].kind == Withdrawal {
        assert Sets(init[i]);
        var j :| i < j < |init| && init[j].kind == Withdrawal;
        assert ts[j].kind == Withdrawal;
      }
    }
  }

  /** Whether the first route that is set matches. */
  ghost predicate IsFirstRouteOnTransit(o: Option<bool>, ts: seq<RouteTransition>, tp: TransitPredicate) {
    match o
    case None => forall i :: 0 <= i < |ts| ==> !Sets(ts[i])
    case Some(matches) =>
      exists i :: 0 <= i < |ts| && Sets(ts[i]) && (forall j :: 0 <= j < i ==> !Sets(ts[j]))
        && matches == tp.Evaluate(ts[i].to.value.attributes.asPath)
  }

  /** The last withdrawal after which nothing was active. */
  ghost predicate LastEmptyingAt(baseline: Instances, ts: seq<RouteTransition>, i: int) {
    EmptiesAt(baseline, ts, i) && forall j :: i < j ==> !EmptiesAt(baseline, ts, j)
  }

  /** Whether the last route that was lost matched, as far as that is known. */
  ghost predicate IsLastLossOnTransit(
      o: Option<bool>, baseline: Instances, ts: seq<RouteTransition>, tp: TransitPredicate)
  {
    match o
    case None => EmptiesEver(baseline, ts) ==> exists i :: LastEmptyingAt(baseline, ts, i) && ts[i].from.None?
    case Some(matched) =>
      exists i :: LastEmptyingAt(baseline, ts, i) && ts[i].from.Some?
        && matched == tp.Evaluate(ts[i].from.value.attributes.asPath)
  }

  lemma {:induction false} FirstRouteMeaning(baseline: Instances, ts: seq<RouteTransition>, tp: TransitPredicate)
    ensures IsFirstRouteOnTransit(FindingsAfter(baseline, ts, tp).replacementRetainedTransit, ts, tp)
    ensures FindingsAfter(baseline, ts, tp).replacementAppeared <==> exists i :: 0 <= i < |ts| && Sets(ts[i])
  {
    var tr := Trace(baseline, ts);
    FindingsMeaning(baseline, ts, tp);
    FirstMatchMeaning(tr, SetsRoute);
    forall i: nat | i < |ts| ensures SetsRoute(tr[i]) <==> Sets(ts[i]) { TraceAt(baseline, ts, i); }
    if FirstMatch(tr, SetsRoute).Some? {
      var i :| 0 <= i < |tr| && SetsRoute(tr[i]) && FirstMatch(tr, SetsRoute) == Some(tr[i])
        && forall j :: 0 <= j < i ==> !SetsRoute(tr[j]);
      TraceAt(baseline, ts, i);
      assert Sets(ts[i]);
    }
  }

  lemma {:induction false} LastLossMeaning(baseline: Instances, ts: seq<RouteTransition>, tp: TransitPredicate)
    ensures IsLastLossOnTransit(LedgerAfter(baseline, ts, tp).transitAtWithdrawal, baseline, ts, tp)
  {
    var tr := Trace(baseline, ts);
    LastWithdrawalMeaning(baseline, ts, tp);
    LastMatchMeaning(tr, Empties);
    AllMomentsMean(baseline, ts);
    if LastMatch(tr, Empties).Some? {
      var i :| 0 <= i < |tr| && Empties(tr[i]) && LastMatch(tr, Empties) == Some(tr[i])
        && forall j :: i < j < |tr| ==> !Empties(tr[j]);
      TraceAt(baseline, ts, i);
      assert LastEmptyingAt(baseline, ts, i);
    }
  }

  /** Final state, first replacement, transit at withdrawal and return to the baseline of a record. */
  lemma {:induction false} RoutesMeaning(
      lc: StreamLifecycle, stream: StreamKey, baseline: Instances, ts: seq<RouteTransition>, cooldownEnd: int,
      tp: TransitPredicate)
    requires IsLifecycle(lc, stream, baseline, ts, cooldownEnd, tp)
    ensures IsFinalState(lc.finalState, ts)
    ensures lc.replacementAppeared <==> exists i :: 0 <= i < |ts| && Sets(ts[i])
    ensures IsFirstRouteOnTransit(lc.replacementRetainedTransit, ts, tp)
    ensures IsLastLossOnTransit(lc.transitAtWithdrawal, baseline, ts, tp)
    ensures lc.baselineRestored <==> exists i :: 0 <= i < |ts| && ts[i].kind == ReturnToBaseline
  {
    ConclusionFields(lc, stream, baseline, Simulate(baseline, ts, tp), Ambiguous(baseline, ts), cooldownEnd, tp);
    ConclusionRoutes(lc, stream, baseline, Simulate(baseline, ts, tp), Ambiguous(baseline, ts), cooldownEnd, tp);
    FinalStateMeaning(baseline, ts, tp);
    FirstRouteMeaning(baseline, ts, tp);
    LastLossMeaning(baseline, ts, tp);
    ReturnMeaning(baseline, ts, tp);
  }

  lemma {:induction false} ReturnMeaning(baseline: Instances, ts: seq<RouteTransition>, tp: TransitPredicate)
    ensures FindingsAfter(baseline, ts, tp).baselineRestored <==>
      exists i :: 0 <= i < |ts| && ts[i].kind == ReturnToBaseline
  {
    if ts != [] {
      var n := |ts| - 1;
      ReturnMeaning(baseline, ts[..n], tp);
      if i :| 0 <= i < n && ts[..n][i].kind == ReturnToBaseline { assert ts[i].kind == ReturnToBaseline; }
      if i :| 0 <= i < n && ts[i].kind == ReturnToBaseline { assert ts[..n][i].kind == ReturnToBaseline; }
    }
  }

  // ---- Numbers ----

  /** The instances that were there from the beginning, or that a transition set. */
  ghost function EverSeen(baseline: Instances, ts: seq<RouteTransition>): set<RouteKey> {
    baseline.Keys + set i | 0 <= i < |ts| && Sets(ts[i]) :: ts[i].key
  }

  lemma {:induction false} SeenExactly(baseline: Instances, ts: seq<RouteTransition>, tp: TransitPredicate)
    ensures TallyAfter(baseline, ts, tp).seenInstances == EverSeen(baseline, ts)
  {
    if ts != [] {
      var n := |ts| - 1;
      var init, t := ts[..n], ts[n];
      SeenExactly(baseline, init, tp);
      assert EverSeen(baseline, ts) == EverSeen(baseline, init) + if Sets(t) then {t.key} else {} by {
        assert forall i :: 0 <= i < n ==> init[i] == ts[i];
        SeenSnoc(baseline, ts);
      }
    }
  }

  lemma SeenSnoc(baseline: Instances, ts: seq<RouteTransition>)
    requires ts != []
    ensures
      var t := ts[|ts| - 1];
      EverSeen(baseline, ts) == EverSeen(baseline, ts[..|ts| - 1]) + if Sets(t) then {t.key} else {}
  {
    var n := |ts| - 1;
    var init := ts[..n];
    forall k ensures k in EverSeen(baseline, ts) <==>
      k in EverSeen(baseline, init) || (Sets(ts[n]) && k == ts[n].key)
    {
      if k in EverSeen(baseline, ts) && k !in baseline {
        var i :| 0 <= i < |ts| && Sets(ts[i]) && ts[i].key == k;
        assert i < n ==> init[i] == ts[i];
      }
      if k in EverSeen(baseline, init) && k !in baseline {
        var i :| 0 <= i < |init| && Sets(init[i]) && init[i].key == k;
        assert ts[i] == init[i];
      }
    }
  }

  function Places(tr: seq<Moment>, p: Moment -> bool): set<int> { set i | 0 <= i < |tr| && p(tr[i]) }

  lemma {:induction false} TimesAsSet(baseline: Instances, ts: seq<RouteTransition>)
    ensures Times(Trace(baseline, ts), Empties) == |set i | 0 <= i < |ts| && EmptiesAt(baseline, ts, i)|
  {
    AllMomentsMean(baseline, ts);
    TimesCounted(Trace(baseline, ts), Empties);
    var tr := Trace(baseline, ts);
    assert Places(tr, Empties) == set i | 0 <= i < |ts| && EmptiesAt(baseline, ts, i);
  }

  lemma {:induction false} TimesCounted(tr: seq<Moment>, p: Moment -> bool)
    ensures Times(tr, p) == |Places(tr, p)|
  {
    if tr != [] {
      var n := |tr| - 1;
      var init := tr[..n];
      TimesCounted(init, p);
      assert tr == init + [tr[n]];
      FilterSnoc(init, tr[n], p);
      assert Places(tr, p) == Places(init, p) + if p(tr[n]) then {n} else {};
    }
  }

  /** How many instances there were, at once and in all, and how often the stream was emptied. */
  lemma {:induction false} NumbersMeaning(
      lc: StreamLifecycle, stream: StreamKey, baseline: Instances, ts: seq<RouteTransition>, cooldownEnd: int,
      tp: TransitPredicate)
    requires IsLifecycle(lc, stream, baseline, ts, cooldownEnd, tp)
    ensures lc.stream == stream && lc.baselineInstanceCount == |baseline|
    ensures forall n :: 0 <= n <= |ts| ==> |ActiveAfter(baseline, ts[..n])| <= lc.maxConcurrentInstances
    ensures exists n :: 0 <= n <= |ts| && |ActiveAfter(baseline, ts[..n])| == lc.maxConcurrentInstances
    ensures lc.totalRouteInstances == |EverSeen(baseline, ts)|
    ensures lc.streamWithdrawalCount == |set i | 0 <= i < |ts| && EmptiesAt(baseline, ts, i)|
    ensures lc.activeBeforeAbsence == if lc.streamWithdrawalCount > 0 then 1 else 0
  {
    RecordNumbers(lc, stream, baseline, Simulate(baseline, ts, tp), Ambiguous(baseline, ts), cooldownEnd, tp);
    ConcurrencyMeaning(baseline, ts, tp);
    SeenExactly(baseline, ts, tp);
    CountersMeaning(baseline, ts, tp);
    TimesAsSet(baseline, ts);
    ActiveBeforeAbsenceMeaning(baseline, ts, tp);
  }

  lemma RecordNumbers(
      lc: StreamLifecycle, stream: StreamKey, baseline: Instances, s: Sim, ambiguous: bool, cooldownEnd: int,
      tp: TransitPredicate)
    requires Concludes(lc, stream, baseline, s, ambiguous, cooldownEnd, tp)
    ensures lc.stream == stream && lc.baselineInstanceCount == |baseline|
    ensures lc.maxConcurrentInstances == s.tally.maxConcurrent
    ensures lc.totalRouteInstances == |s.tally.seenInstances|
    ensures lc.streamWithdrawalCount == s.ledger.withdrawalCount
    ensures lc.activeBeforeAbsence == s.ledger.activeBeforeAbsence
    ensures lc.restorations == s.ledger.restorations
  {
  }

  ghost predicate LeastOf(k: RouteKey, baseline: Instances) {
    k in baseline && forall other :: other in baseline ==> IdNotAfter(k.pathId, other.pathId)
  }

  /** The path of the first baseline instance: the one without identifier, or with the least. */
  lemma BaselinePathMeaning(
      lc: StreamLifecycle, stream: StreamKey, baseline: Instances, ts: seq<RouteTransition>, cooldownEnd: int,
      tp: TransitPredicate)
    requires IsLifecycle(lc, stream, baseline, ts, cooldownEnd, tp)
    ensures baseline == map[] ==> lc.baselinePath == []
    ensures baseline != map[] ==>
      exists k :: LeastOf(k, baseline) && lc.baselinePath == baseline[k].attributes.asPath
  {
    if baseline != map[] {
      var k :| IsFirst(k, baseline) && lc.baselinePath == baseline[k].attributes.asPath;
      forall other | other in baseline ensures IdNotAfter(k.pathId, other.pathId) {
        PathIdOrderMeaning(k.pathId, other.pathId);
      }
      assert LeastOf(k, baseline);
    }
  }

  /** The record's restorations are those of the run's returns. */
  lemma {:induction false} RecordRestorations(
      lc: StreamLifecycle, stream: StreamKey, baseline: Instances, ts: seq<RouteTransition>, cooldownEnd: int,
      tp: TransitPredicate)
    requires IsLifecycle(lc, stream, baseline, ts, cooldownEnd, tp)
    ensures RestoresEach(lc.restorations, baseline, ts, Returns(baseline, ts))
    ensures forall i :: i in Returns(baseline, ts) <==> VisibleAgainAt(baseline, ts, i)
  {
    RecordNumbers(lc, stream, baseline, Simulate(baseline, ts, tp), Ambiguous(baseline, ts), cooldownEnd, tp);
    RestorationsMeaning(baseline, ts, tp);
    ReturnsMeaning(baseline, ts);
  }

  // ---- The evidence of ambiguity ----

  function NameAt(ts: seq<RouteTransition>, i: nat, sha: bool): Option<string>
    requires i < |ts|
  {
    if sha then ts[i].evidence.archiveSha else ts[i].evidence.sourceUrl
  }

  /** Transition `i` names the archive, by its URL or by its checksum. */
  predicate NamesAt(ts: seq<RouteTransition>, i: int, sha: bool, name: string) {
    0 <= i < |ts| && NameAt(ts, i, sha) == Some(name)
  }

  /** A transition's URL comes before its checksum. */
  predicate Sooner(i: int, sha: bool, j: int, sha': bool) { i < j || (i == j && !sha && sha') }

  ghost predicate FirstNamedAt(ts: seq<RouteTransition>, i: int, sha: bool, name: string) {
    NamesAt(ts, i, sha, name) && forall j, other :: Sooner(j, other, i, sha) ==> !NamesAt(ts, j, other, name)
  }

  /** One name before another: where each is named first. */
  ghost predicate NamedEarlier(ts: seq<RouteTransition>, a: string, b: string) {
    exists i, sha, j, sha' :: Sooner(i, sha, j, sha') && FirstNamedAt(ts, i, sha, a) && FirstNamedAt(ts, j, sha', b)
  }

  ghost predicate NamedInOrder(ts: seq<RouteTransition>, names: seq<string>) {
    forall i, j :: 0 <= i < j < |names| ==> NamedEarlier(ts, names[i], names[j])
  }

  /** These are the names so far, and each of them has a first place so far. */
  ghost predicate Collects(names: seq<string>, ts: seq<RouteTransition>, i: int, sha: bool) {
    forall name :: if name in names then FirstNamedBefore(ts, i, sha, name)
      else forall j, other :: Sooner(j, other, i, sha) ==> !NamesAt(ts, j, other, name)
  }

  ghost predicate FirstNamedBefore(ts: seq<RouteTransition>, i: int, sha: bool, name: string) {
    exists j, other :: Sooner(j, other, i, sha) && FirstNamedAt(ts, j, other, name)
  }

  lemma {:induction false} NamedSnoc(ts: seq<RouteTransition>, names: seq<string>, name: string)
    requires NamedInOrder(ts, names) && forall other :: other in names ==> NamedEarlier(ts, other, name)
    ensures NamedInOrder(ts, names + [name])
  {
    forall i, j | 0 <= i < j < |names + [name]| ensures NamedEarlier(ts, (names + [name])[i], (names + [name])[j]) {
      assert names[i] in names;
    }
  }

  /** The place after this one. */
  lemma NextPlace(i: int, sha: bool, j: int, other: bool)
    ensures
      var next, half := if sha then i + 1 else i, !sha;
      Sooner(j, other, next, half) <==> Sooner(j, other, i, sha) || (j == i && other == sha)
  {
  }

  lemma {:induction false} NoName(names: seq<string>, ts: seq<RouteTransition>, i: nat, sha: bool)
    requires i < |ts| && Collects(names, ts, i, sha) && NameAt(ts, i, sha).None?
    ensures Collects(names, ts, if sha then i + 1 else i, !sha)
  {
    forall j, other { NextPlace(i, sha, j, other); }
    forall name | name in names ensures FirstNamedBefore(ts, if sha then i + 1 else i, !sha, name) {
      var j, other :| Sooner(j, other, i, sha) && FirstNamedAt(ts, j, other, name);
    }
  }

  lemma {:induction false} OneName(names: seq<string>, ts: seq<RouteTransition>, i: nat, sha: bool, name: string)
    requires i < |ts| && Collects(names, ts, i, sha) && NameAt(ts, i, sha) == Some(name)
    ensures Collects(names + [name], ts, if sha then i + 1 else i, !sha)
  {
    forall j, other { NextPlace(i, sha, j, other); }
    forall x | x in names + [name] ensures FirstNamedBefore(ts, if sha then i + 1 else i, !sha, x) {
      if x in names {
        var j, other :| Sooner(j, other, i, sha) && FirstNamedAt(ts, j, other, x);
      } else {
        assert FirstNamedAt(ts, i, sha, x);
      }
    }
  }

  lemma {:induction false} NewNameLast(names: seq<string>, ts: seq<RouteTransition>, i: nat, sha: bool, name: string)
    requires i < |ts| && Collects(names, ts, i, sha) && NameAt(ts, i, sha) == Some(name) && name !in names
    requires NamedInOrder(ts, FirstMentions(names))
    ensures NamedInOrder(ts, FirstMentions(names) + [name])
  {
    assert FirstNamedAt(ts, i, sha, name);
    FirstMentionsMeaning(names);
    forall other | other in FirstMentions(names) ensures NamedEarlier(ts, other, name) {
      var j, half :| Sooner(j, half, i, sha) && FirstNamedAt(ts, j, half, other);
    }
    NamedSnoc(ts, FirstMentions(names), name);
  }

  lemma {:induction false} OneMoreName(names: seq<string>, ts: seq<RouteTransition>, i: nat, sha: bool)
    requires i < |ts| && Collects(names, ts, i, sha) && NamedInOrder(ts, FirstMentions(names))
    ensures
      var more := names + Named(NameAt(ts, i, sha));
      Collects(more, ts, if sha then i + 1 else i, !sha) && NamedInOrder(ts, FirstMentions(more))
  {
    var name := NameAt(ts, i, sha);
    if name.Some? {
      OneName(names, ts, i, sha, name.value);
      FirstMentionsSnoc(names, name.value);
      if name.value !in names {
        NewNameLast(names, ts, i, sha, name.value);
      } else {
        assert FirstMentions(names) + [] == FirstMentions(names);
      }
    } else {
      NoName(names, ts, i, sha);
      assert names + [] == names;
    }
  }

  lemma {:induction false} MentionsInOrder(ts: seq<RouteTransition>, i: nat)
    requires i <= |ts|
    ensures Collects(Mentions(ts[..i]), ts, i, false) && NamedInOrder(ts, FirstMentions(Mentions(ts[..i])))
  {
    if i > 0 {
      MentionsInOrder(ts, i - 1);
      assert ts[..i][..i - 1] == ts[..i - 1];
      var names := Mentions(ts[..i - 1]);
      OneMoreName(names, ts, i - 1, false);
      OneMoreName(names + Named(ts[i - 1].evidence.sourceUrl), ts, i - 1, true);
    }
  }

  /** The archives in the evidence: those that any transition names, each once, in the order they are first named. */
  lemma {:induction false} ArchivesMeaning(a: AddPathAmbiguity, stream: StreamKey, ts: seq<RouteTransition>)
    requires IsEvidence(a, stream, ts)
    ensures forall name :: name in a.archiveIdentities <==> exists i, sha :: NamesAt(ts, i, sha, name)
    ensures NamedInOrder(ts, a.archiveIdentities)
  {
    MentionsInOrder(ts, |ts|);
    assert ts[..|ts|] == ts;
    FirstMentionsMeaning(Mentions(ts));
    forall name ensures name in a.archiveIdentities <==> exists i, sha :: NamesAt(ts, i, sha, name) {
      assert name in a.archiveIdentities <==> name in Mentions(ts);
      if i, sha :| NamesAt(ts, i, sha, name) { assert Sooner(i, sha, |ts|, false); }
    }
  }

  /** The observation of the first transition with a path identifier, or of the first without one. */
  ghost predicate IsFirstObservation(o: Option<nat>, ts: seq<RouteTransition>, keyed: bool) {
    match o
    case None => forall i :: 0 <= i < |ts| ==> ts[i].key.pathId.Some? != keyed
    case Some(id) =>
      exists i :: 0 <= i < |ts| && ts[i].key.pathId.Some? == keyed && id == ts[i].evidence.observationId
        && forall j :: 0 <= j < i ==> ts[j].key.pathId.Some? != keyed
  }

  lemma {:induction false} EvidenceMeaning(a: AddPathAmbiguity, stream: StreamKey, ts: seq<RouteTransition>)
    requires IsEvidence(a, stream, ts)
    ensures a.stream == stream
    ensures IsFirstObservation(a.firstKeyed, ts, true) && IsFirstObservation(a.firstUnkeyed, ts, false)
    ensures ts == [] ==> a.affectedStart == a.affectedEnd == None
    ensures ts != [] ==>
      a.affectedStart == Some(ts[0].Time()) && a.affectedEnd == Some(ts[|ts| - 1].Time())
  {
    if a.firstKeyed.Some? {
      var i :| 0 <= i < |ts| && Keyed(ts[i].key) && a.firstKeyed.value == ts[i].evidence.observationId
        && forall j :: 0 <= j < i ==> !Keyed(ts[j].key);
      assert ts[i].key.pathId.Some? == true;
    }
    if a.firstUnkeyed.Some? {
      var i :| 0 <= i < |ts| && Unkeyed(ts[i].key) && a.firstUnkeyed.value == ts[i].evidence.observationId
        && forall j :: 0 <= j < i ==> !Unkeyed(ts[j].key);
      assert ts[i].key.pathId.Some? == false;
    }
  }

  // ---- What is listed ----

  /** What a listed transition says of the run's. */
  ghost predicate Describes(d: LifecycleTransition, t: RouteTransition, tp: TransitPredicate) {
    && d.timestamp == t.Time() && d.phase == t.phase && d.kind == t.kind && d.pathId == t.key.pathId
    && d.beforePath == OldPath(t) && d.afterPath == NewPath(t) && d.observationId == t.evidence.observationId
    && (d.pathShape == None <==> !Reroutes(t) && !Prepends(t))
    && (d.pathShape == Some(PrependReduced) <==> Prepends(t) && |OldPath(t)| > |NewPath(t)|)
    && (d.pathShape == Some(PrependIncreased) <==> Prepends(t) && |OldPath(t)| <= |NewPath(t)|)
    && (d.pathShape == Some(PathDepartedRequiredTransit) <==> LeavesTransit(t, tp))
    && (d.pathShape == Some(PathChangedStillViaRequiredTransit) <==> StaysOnTransit(t, tp))
    && (d.pathShape == Some(PathReturnedToRequiredTransit) <==> ReachesTransit(t, tp))
  }

  /** One after the other, each for its own. */
  ghost predicate DescribesAll(ds: seq<LifecycleTransition>, ts: seq<RouteTransition>, tp: TransitPredicate) {
    |ds| == |ts| && forall i :: 0 <= i < |ds| ==> Describes(ds[i], ts[i], tp)
  }

  function OutsideCooldown(ts: seq<RouteTransition>): seq<RouteTransition> {
    if ts == [] then []
    else OutsideCooldown(ts[..|ts| - 1]) + if ts[|ts| - 1].phase == Cooldown then [] else [ts[|ts| - 1]]
  }

  function DuringCooldown(ts: seq<RouteTransition>): seq<RouteTransition> {
    if ts == [] then []
    else DuringCooldown(ts[..|ts| - 1]) + if ts[|ts| - 1].phase == Cooldown then [ts[|ts| - 1]] else []
  }

  lemma DescribedTells(t: RouteTransition, tp: TransitPredicate)
    ensures Describes(Described(t, tp), t, tp)
  {
    ShapeMeaning(t, tp);
  }

  lemma DescribesSnoc(
      ds: seq<LifecycleTransition>, ts: seq<RouteTransition>, d: LifecycleTransition, t: RouteTransition,
      tp: TransitPredicate)
    requires DescribesAll(ds, ts, tp) && Describes(d, t, tp)
    ensures DescribesAll(ds + [d], ts + [t], tp)
  {
  }

  lemma {:induction false} ListsDescribe(baseline: Instances, ts: seq<RouteTransition>, tp: TransitPredicate)
    ensures DescribesAll(TallyAfter(baseline, ts, tp).main, OutsideCooldown(ts), tp)
    ensures DescribesAll(TallyAfter(baseline, ts, tp).cooldown, DuringCooldown(ts), tp)
  {
    if ts != [] {
      var n := |ts| - 1;
      var init, t := ts[..n], ts[n];
      ListsDescribe(baseline, init, tp);
      DescribedTells(t, tp);
      var y := TallyAfter(baseline, init, tp);
      if t.phase == Cooldown {
        DescribesSnoc(y.cooldown, DuringCooldown(init), Described(t, tp), t, tp);
      } else {
        DescribesSnoc(y.main, OutsideCooldown(init), Described(t, tp), t, tp);
      }
    }
  }

  /** The two lists of a record: every transition of its run, described, in the list of its phase and in order. */
  lemma {:induction false} ListsMeaning(
      lc: StreamLifecycle, stream: StreamKey, baseline: Instances, ts: seq<RouteTransition>, cooldownEnd: int,
      tp: TransitPredicate)
    requires IsLifecycle(lc, stream, baseline, ts, cooldownEnd, tp)
    ensures DescribesAll(lc.transitions, OutsideCooldown(ts), tp)
    ensures DescribesAll(lc.cooldownTransitions, DuringCooldown(ts), tp)
  {
    ListsDescribe(baseline, ts, tp);
    RecordLists(lc, stream, baseline, Simulate(baseline, ts, tp), Ambiguous(baseline, ts), cooldownEnd, tp);
  }

  lemma RecordLists(
      lc: StreamLifecycle, stream: StreamKey, baseline: Instances, s: Sim, ambiguous: bool, cooldownEnd: int,
      tp: TransitPredicate)
    requires Concludes(lc, stream, baseline, s, ambiguous, cooldownEnd, tp)
    ensures lc.transitions == s.tally.main && lc.cooldownTransitions == s.tally.cooldown
  {
  }
}
