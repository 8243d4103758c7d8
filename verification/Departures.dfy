/** Where categories and path shapes say more, or less, than they are documented to. */
module Departures {
  import opened Prelude
  import opened Seqs
  import opened Routes
  import opened Lifecycle
  import opened LifecycleProofs
  import opened LifecycleRuns
  import opened LifecycleHistory
  import W = Waves

  // ---- Departed, although visible through the transit ----

  /** All instances are told apart by these path identifiers of one stream. */
  ghost predicate Among(stream: StreamKey, ids: set<Option<U32>>, baseline: Instances, ts: seq<RouteTransition>) {
    && OneStream(stream, baseline, ts)
    && (forall k :: k in baseline ==> k.pathId in ids)
    && (forall i :: 0 <= i < |ts| ==> ts[i].key.pathId in ids)
  }

  /** At some point of the run the stream was visible without any matching route. */
  ghost predicate WentOffTransit(baseline: Instances, ts: seq<RouteTransition>, tp: TransitPredicate) {
    exists n: nat :: n <= |ts| && n > 0 && OffTransitAfter(baseline, ts, n, tp)
  }

  predicate OffTransitAfter(baseline: Instances, ts: seq<RouteTransition>, n: nat, tp: TransitPredicate)
    requires n <= |ts|
  {
    OffTransit(ActiveAfter(baseline, ts[..n]), tp)
  }

  /** The documented meaning of the category. */
  ghost predicate DepartedAsDocumented(baseline: Instances, ts: seq<RouteTransition>, tp: TransitPredicate) {
    CategoryOf(Simulate(baseline, ts, tp)).DepartedTransitPath? ==> WentOffTransit(baseline, ts, tp)
  }

  lemma DepartedShape(t: RouteTransition, tp: TransitPredicate)
    requires ShapeOf(t, tp) == Some(PathDepartedRequiredTransit)
    ensures Applies(t) && !Via(tp, t.to.value)
  {
  }

  lemma {:induction false} OneKeyOnly(
      stream: StreamKey, ids: set<Option<U32>>, baseline: Instances, ts: seq<RouteTransition>, k: RouteKey)
    requires Among(stream, ids, baseline, ts) && k in ActiveAfter(baseline, ts)
    ensures k.stream == stream && k.pathId in ids
  {
    if ts != [] {
      var init, t := ts[..|ts| - 1], ts[|ts| - 1];
      if k != t.key { OneKeyOnly(stream, ids, baseline, init, k); }
    }
  }

  lemma AtMostOne<T>(xs: set<T>, x: T, y: T)
    requires |xs| <= 1 && x in xs && y in xs
    ensures x == y
  {
    SubsetSize({x, y}, xs);
    assert x != y ==> |{x, y}| == 2;
  }

  /** With a single path identifier the departing route was the only one. */
  lemma SingleInstanceDeparts(
      stream: StreamKey, ids: set<Option<U32>>, baseline: Instances, ts: seq<RouteTransition>, tp: TransitPredicate,
      i: nat)
    requires Among(stream, ids, baseline, ts) && |ids| <= 1 && i < |ts|
    requires ShapeOf(ts[i], tp) == Some(PathDepartedRequiredTransit)
    ensures OffTransitAfter(baseline, ts, i + 1, tp)
  {
    var upTo, t := ts[..i + 1], ts[i];
    DepartedShape(t, tp);
    var after := ActiveAfter(baseline, upTo);
    assert upTo[|upTo| - 1] == t && t.key in after && after[t.key] == t.to.value;
    forall k | k in after ensures k == t.key {
      OneKeyOnly(stream, ids, baseline, upTo, k);
      AtMostOne(ids, k.pathId, t.key.pathId);
    }
  }

  lemma SingleInstanceAsDocumented(
      stream: StreamKey, ids: set<Option<U32>>, baseline: Instances, ts: seq<RouteTransition>, tp: TransitPredicate)
    requires Among(stream, ids, baseline, ts) && |ids| <= 1
    ensures DepartedAsDocumented(baseline, ts, tp)
  {
    if CategoryOf(Simulate(baseline, ts, tp)).DepartedTransitPath? {
      CategoryMeaning(baseline, ts, tp);
      MarkedOff(stream, ids, baseline, ts, tp);
    }
  }

  lemma {:induction false} MarkedOff(
      stream: StreamKey, ids: set<Option<U32>>, baseline: Instances, ts: seq<RouteTransition>, tp: TransitPredicate)
    requires Among(stream, ids, baseline, ts) && |ids| <= 1
    requires Marked(Trace(baseline, ts), tp, DepartedTransitPath)
    ensures WentOffTransit(baseline, ts, tp)
  {
    var tr := Trace(baseline, ts);
    var i :| 0 <= i < |tr| && Marks(tr[i].t, tr[i].after, tp, DepartedTransitPath);
    TraceAt(baseline, ts, i);
    if !OffTransit(tr[i].after, tp) {
      SingleInstanceDeparts(stream, ids, baseline, ts, tp, i);
    }
    assert OffTransitAfter(baseline, ts, i + 1, tp);
  }

  // ---- The failing input ----

  const ON_TRANSIT := NO_ATTRIBUTES.(asPath := [1])

  const OFF_TRANSIT := NO_ATTRIBUTES.(asPath := [2])

  function Route(attributes: RouteAttributes): RouteState { RouteState(attributes, 0) }

  /** Two instances on the transit, and a replacement that takes one of them off it. */
  function TwoOnTransit(stream: StreamKey, p: Option<U32>, q: Option<U32>): Instances {
    map[RouteKey(stream, p) := Route(ON_TRANSIT), RouteKey(stream, q) := Route(ON_TRANSIT)]
  }

  function OneLeaves(stream: StreamKey, p: Option<U32>): RouteTransition {
    RouteTransition(RouteKey(stream, p), Some(Route(ON_TRANSIT)), Some(Route(OFF_TRANSIT)), 0,
      PathReplacement([1], [2]), NO_EFFECTS, Event, NO_SOURCE)
  }

  lemma OneLeavesDeparts(stream: StreamKey, p: Option<U32>)
    ensures ShapeOf(OneLeaves(stream, p), ContainsAny([1])) == Some(PathDepartedRequiredTransit)
  {
    var tp := ContainsAny([1]);
    assert tp.Evaluate([1]) by { assert 1 in [1]; }
    assert !tp.Evaluate([2]);
    CollapseKeepsMembers([1], 1);
    CollapseKeepsMembers([2], 1);
    assert 1 in Collapse([1]) && 1 !in Collapse([2]);
    SemanticEqualityMeaning(ON_TRANSIT, OFF_TRANSIT);
  }

  /** The other instance still matches at every moment of the run, yet the category says departed. */
  lemma DepartedWhileOnTransit(stream: StreamKey, p: Option<U32>, q: Option<U32>)
    requires p != q
    ensures !DepartedAsDocumented(TwoOnTransit(stream, p, q), [OneLeaves(stream, p)], ContainsAny([1]))
  {
    var baseline, t, tp := TwoOnTransit(stream, p, q), OneLeaves(stream, p), ContainsAny([1]);
    var after := Acted(baseline, t);
    assert [t][..0] == [] && [t][..1] == [t];
    assert ActiveAfter(baseline, [t]) == after;
    var k := RouteKey(stream, q);
    assert k in after && after[k] == Route(ON_TRANSIT);
    assert Via(tp, after[k]) by { assert 1 in [1]; }
    assert AnyMatching(after, tp);
    assert !OffTransitAfter(baseline, [t], 1, tp);
    OneLeavesDeparts(stream, p);
    OneMomentDeparts(baseline, t, tp);
  }

  lemma OneMomentDeparts(baseline: Instances, t: RouteTransition, tp: TransitPredicate)
    requires ShapeOf(t, tp) == Some(PathDepartedRequiredTransit)
    ensures CategoryOf(Simulate(baseline, [t], tp)).DepartedTransitPath?
  {
    DepartedShape(t, tp);
    CategoryMeaning(baseline, [t], tp);
    TraceAt(baseline, [t], 0);
    var tr := Trace(baseline, [t]);
    assert tr[0].t == t;
    assert Marks(tr[0].t, tr[0].after, tp, DepartedTransitPath);
  }

  ghost predicate AlwaysAsDocumented(stream: StreamKey, ids: set<Option<U32>>) {
    forall baseline, ts, tp :: Among(stream, ids, baseline, ts) ==> DepartedAsDocumented(baseline, ts, tp)
  }

  lemma TwoIdentifiersFail(stream: StreamKey, ids: set<Option<U32>>, p: Option<U32>, q: Option<U32>)
    requires p in ids && q in ids && p != q
    ensures !AlwaysAsDocumented(stream, ids)
  {
    DepartedWhileOnTransit(stream, p, q);
    assert Among(stream, ids, TwoOnTransit(stream, p, q), [OneLeaves(stream, p)]);
  }

  /**
   * The category means what it is documented to mean, for every run of a stream over
   * some path identifiers and every predicate, exactly when there is at most one.
   */
  lemma DepartedAsDocumentedExactly(stream: StreamKey, ids: set<Option<U32>>)
    ensures AlwaysAsDocumented(stream, ids) <==> |ids| <= 1
  {
    if |ids| <= 1 {
      forall baseline, ts, tp | Among(stream, ids, baseline, ts) ensures DepartedAsDocumented(baseline, ts, tp) {
        SingleInstanceAsDocumented(stream, ids, baseline, ts, tp);
      }
    } else {
      var p :| p in ids;
      assert ids - {p} != {} by { assert |ids - {p}| == |ids| - 1; }
      var q :| q in ids - {p};
      TwoIdentifiersFail(stream, ids, p, q);
    }
  }

  // ---- An increase without a longer path ----

  ghost predicate IncreaseMeansLonger(from: seq<U32>, to: seq<U32>, tp: TransitPredicate) {
    ClassifyPathChange(from, to, tp) == PrependIncreased ==> |to| > |from|
  }

  /** A prepend increase means a longer path, except between collapsed-equal paths of one length. */
  lemma IncreaseMeansLongerExactly(from: seq<U32>, to: seq<U32>, tp: TransitPredicate)
    ensures IncreaseMeansLonger(from, to, tp) <==> !(CollapsedEquivalent(from, to) && |from| == |to|)
  {
  }

  lemma IncreaseWithoutLonger(tp: TransitPredicate)
    ensures ClassifyPathChange([1, 1, 2], [1, 2, 2], tp) == PrependIncreased
  {
    CollapseIgnoresPrepending([], 1, [2]);
    CollapseIgnoresPrepending([1], 2, []);
    assert [] + [1, 1] + [2] == [1, 1, 2] && [] + [1] + [2] == [1, 2];
    assert [1] + [2, 2] + [] == [1, 2, 2] && [1] + [2] + [] == [1, 2];
  }

  predicate MaterialReplacement(t: RouteTransition) {
    && t.kind.PathReplacement? && t.from.Some? && t.to.Some?
    && !RouteSemanticallyEquivalent(t.from.value.attributes, t.to.value.attributes)
  }

  predicate OnlyPrepends(t: RouteTransition) {
    && MaterialReplacement(t)
    && CollapsedEquivalent(t.from.value.attributes.asPath, t.to.value.attributes.asPath)
  }

  lemma PrependMark(t: RouteTransition, after: Instances, tp: TransitPredicate)
    ensures Marks(t, after, tp, PrependOnly) <==> OnlyPrepends(t)
  {
  }

  /** Over whole runs: `PrependOnly` is marked by a material replacement between collapsed-equal paths alone. */
  lemma {:induction false} PrependMarkedMeaning(baseline: Instances, ts: seq<RouteTransition>, tp: TransitPredicate)
    ensures PrependOnly in FindingsAfter(baseline, ts, tp).seenCategories
      <==> exists i :: 0 <= i < |ts| && OnlyPrepends(ts[i])
  {
    var tr := Trace(baseline, ts);
    SeenMeaning(baseline, ts, tp, PrependOnly);
    forall i | 0 <= i < |ts| ensures Marks(tr[i].t, tr[i].after, tp, PrependOnly) <==> OnlyPrepends(ts[i]) {
      TraceAt(baseline, ts, i);
      PrependMark(ts[i], tr[i].after, tp);
    }
  }

  // ---- A final state of nothing, although something is active ----

  /** Some transition withdraws, or sets a route. */
  ghost predicate SomethingSettles(ts: seq<RouteTransition>) {
    exists i :: 0 <= i < |ts| && SettlesRoute(ts[i])
  }

  predicate SettlesRoute(t: RouteTransition) { t.kind.Withdrawal? || t.to.Some? }

  lemma {:induction false} SettledSomewhere(baseline: Instances, ts: seq<RouteTransition>)
    requires SomethingSettles(ts)
    ensures LastMatch(Trace(baseline, ts), Settles).Some?
  {
    var i :| 0 <= i < |ts| && SettlesRoute(ts[i]);
    TraceAt(baseline, ts, i);
    LastMatchMeaning(Trace(baseline, ts), Settles);
  }

  /** With one path identifier, a withdrawal leaves nothing. */
  lemma {:induction false} SingleWithdrawalEmpties(
      stream: StreamKey, ids: set<Option<U32>>, baseline: Instances, ts: seq<RouteTransition>, i: nat)
    requires Among(stream, ids, baseline, ts) && |ids| <= 1 && i < |ts| && ts[i].kind.Withdrawal?
    ensures ActiveAfter(baseline, ts[..i + 1]) == map[]
  {
    var upTo := ts[..i + 1];
    var after := ActiveAfter(baseline, upTo);
    assert upTo[|upTo| - 1] == ts[i] && ts[i].key !in after;
    forall k | k in after ensures false {
      OneKeyOnly(stream, ids, baseline, upTo, k);
      AtMostOne(ids, k.pathId, ts[i].key.pathId);
    }
  }

  lemma {:induction false} LastSettles(baseline: Instances, ts: seq<RouteTransition>)
    ensures LastMatch(Trace(baseline, ts), Settles).Some? ==>
      exists i :: 0 <= i < |ts| && LastMatch(Trace(baseline, ts), Settles) == Some(Trace(baseline, ts)[i])
  {
    LastMatchMeaning(Trace(baseline, ts), Settles);
  }

  lemma SingleFinalState(
      stream: StreamKey, ids: set<Option<U32>>, baseline: Instances, ts: seq<RouteTransition>, tp: TransitPredicate)
    requires Among(stream, ids, baseline, ts) && |ids| <= 1 && SomethingSettles(ts)
    ensures FinalStateAsDocumented(baseline, ts, tp)
  {
    var tr := Trace(baseline, ts);
    SettledSomewhere(baseline, ts);
    LastSettles(baseline, ts);
    var i :| 0 <= i < |ts| && LastMatch(tr, Settles) == Some(tr[i]);
    TraceAt(baseline, ts, i);
    if ts[i].kind.Withdrawal? { SingleWithdrawalEmpties(stream, ids, baseline, ts, i); }
    FinalStateTellsExactly(baseline, ts, tp);
  }

  function Withdraws(stream: StreamKey, p: Option<U32>, from: Option<RouteState>, time: int): RouteTransition {
    RouteTransition(RouteKey(stream, p), from, None, time, Withdrawal, NO_EFFECTS, Event, NO_SOURCE)
  }

  /** One of two instances is withdrawn: the other is active, the final state is gone. */
  lemma {:induction false} FinalStateOfTwo(stream: StreamKey, p: Option<U32>, q: Option<U32>, tp: TransitPredicate)
    requires p != q
    ensures
      var baseline, ts := TwoOnTransit(stream, p, q), [Withdraws(stream, p, Some(Route(ON_TRANSIT)), 0)];
      && FindingsAfter(baseline, ts, tp).finalState == None
      && RouteKey(stream, q) in ActiveAfter(baseline, ts)
  {
    var baseline, ts := TwoOnTransit(stream, p, q), [Withdraws(stream, p, Some(Route(ON_TRANSIT)), 0)];
    FinalStateForgetsOthers(baseline, ts, tp);
    assert ts[..0] == [];
    assert RouteKey(stream, q) in baseline;
  }

  ghost predicate FinalStateAlwaysAsDocumented(stream: StreamKey, ids: set<Option<U32>>) {
    forall baseline, ts, tp :: Among(stream, ids, baseline, ts) && SomethingSettles(ts) ==>
      FinalStateAsDocumented(baseline, ts, tp)
  }

  /**
   * The final state tells whether anything is active, for every run of a stream that settles
   * anything, exactly when there is at most one path identifier.
   */
  lemma FinalStateAsDocumentedExactly(stream: StreamKey, ids: set<Option<U32>>)
    ensures FinalStateAlwaysAsDocumented(stream, ids) <==> |ids| <= 1
  {
    if |ids| <= 1 {
      forall baseline, ts, tp | Among(stream, ids, baseline, ts) && SomethingSettles(ts)
        ensures FinalStateAsDocumented(baseline, ts, tp)
      {
        SingleFinalState(stream, ids, baseline, ts, tp);
      }
    } else {
      var p, q := TwoOf(ids);
      var baseline, ts := TwoOnTransit(stream, p, q), [Withdraws(stream, p, Some(Route(ON_TRANSIT)), 0)];
      FinalStateOfTwo(stream, p, q, ContainsAny([1]));
      assert Among(stream, ids, baseline, ts) && SettlesRoute(ts[0]);
      assert !FinalStateAsDocumented(baseline, ts, ContainsAny([1]));
    }
  }

  lemma TwoOf<T>(xs: set<T>) returns (x: T, y: T)
    requires |xs| >= 2
    ensures x in xs && y in xs && x != y
  {
    x :| x in xs;
    assert |xs - {x}| == |xs| - 1;
    y :| y in xs - {x};
  }

  // ---- A withdrawn instance is not a withdrawn stream ----

  /** Every transition that supports the label `StreamWithdrawal` leaves the stream without a route. */
  ghost predicate LabelMeansAbsence(stream: StreamKey, ids: set<Option<U32>>) {
    forall baseline, ts, tp, i ::
      (Among(stream, ids, baseline, ts) && 0 <= i < |ts| && W.Supports(ts[i], W.StreamWithdrawal, tp))
      ==> AbsentAfter(baseline, ts, i + 1)
  }

  predicate AbsentAfter(baseline: Instances, ts: seq<RouteTransition>, n: int)
    requires 0 <= n <= |ts|
  {
    ActiveAfter(baseline, ts[..n]) == map[]
  }

  lemma LabelMeansAbsenceExactly(stream: StreamKey, ids: set<Option<U32>>)
    ensures LabelMeansAbsence(stream, ids) <==> |ids| <= 1
  {
    if |ids| <= 1 {
      forall baseline, ts, tp, i | Among(stream, ids, baseline, ts) && 0 <= i < |ts|
        && W.Supports(ts[i], W.StreamWithdrawal, tp)
        ensures AbsentAfter(baseline, ts, i + 1)
      {
        SingleWithdrawalEmpties(stream, ids, baseline, ts, i);
      }
    } else {
      var p, q := TwoOf(ids);
      var baseline, ts, tp :=
        TwoOnTransit(stream, p, q), [Withdraws(stream, p, Some(Route(ON_TRANSIT)), 0)], ContainsAny([1]);
      FinalStateOfTwo(stream, p, q, tp);
      assert Among(stream, ids, baseline, ts) && W.Supports(ts[0], W.StreamWithdrawal, tp);
      assert ts[..1] == ts;
      assert !AbsentAfter(baseline, ts, 0 + 1);
    }
  }

  // ---- A replacement without anything to replace ----

  ghost predicate OfKinds(ts: seq<RouteTransition>, kinds: set<TransitionKind>) {
    forall i :: 0 <= i < |ts| ==> ts[i].kind in kinds
  }

  /** The documented meaning: a route set by a path replacement, or after a withdrawal. */
  ghost predicate ReplacementAsDocumented(baseline: Instances, ts: seq<RouteTransition>, tp: TransitPredicate) {
    FindingsAfter(baseline, ts, tp).replacementAppeared <==> exists i :: ReplacesAt(ts, i)
  }

  ghost predicate ReplacesAt(ts: seq<RouteTransition>, i: int) {
    && 0 <= i < |ts| && Applies(ts[i])
    && (ts[i].kind.PathReplacement? || exists j :: 0 <= j < i && ts[j].kind.Withdrawal?)
  }

  lemma {:induction false} AppearedMeaning(baseline: Instances, ts: seq<RouteTransition>, tp: TransitPredicate)
    ensures FindingsAfter(baseline, ts, tp).replacementAppeared <==> exists i :: 0 <= i < |ts| && Applies(ts[i])
  {
    var tr := Trace(baseline, ts);
    FindingsMeaning(baseline, ts, tp);
    FirstMatchMeaning(tr, SetsRoute);
    forall i | 0 <= i < |ts| ensures SetsRoute(tr[i]) <==> Applies(ts[i]) {
      TraceAt(baseline, ts, i);
    }
  }

  function Sets(stream: StreamKey, kind: TransitionKind): RouteTransition {
    RouteTransition(RouteKey(stream, None), None, Some(Route(ON_TRANSIT)), 0, kind, NO_EFFECTS, Event, NO_SOURCE)
  }

  /** Any other kind of transition that sets a route counts as a replacement, on its own. */
  lemma AppearsFromNothing(stream: StreamKey, kind: TransitionKind, tp: TransitPredicate)
    requires !kind.PathReplacement? && !kind.Withdrawal?
    ensures !ReplacementAsDocumented(map[], [Sets(stream, kind)], tp)
  {
    var ts := [Sets(stream, kind)];
    AppearedMeaning(map[], ts, tp);
    assert Applies(ts[0]);
    forall i ensures !ReplacesAt(ts, i) { }
  }

  ghost predicate ReplacementsAsDocumented(kinds: set<TransitionKind>) {
    forall baseline, ts, tp :: OfKinds(ts, kinds) ==> ReplacementAsDocumented(baseline, ts, tp)
  }

  /**
   * As documented for all runs of some kinds of transitions exactly when these are withdrawals and
   * path replacements.
   */
  lemma ReplacementAsDocumentedExactly(kinds: set<TransitionKind>)
    ensures ReplacementsAsDocumented(kinds) <==> forall kind :: kind in kinds ==>
      kind.PathReplacement? || kind.Withdrawal?
  {
    if kind :| kind in kinds && !kind.PathReplacement? && !kind.Withdrawal? {
      var stream := StreamKey("", "", "");
      AppearsFromNothing(stream, kind, ContainsAny([]));
      assert OfKinds([Sets(stream, kind)], kinds);
    } else {
      forall baseline, ts, tp | OfKinds(ts, kinds) ensures ReplacementAsDocumented(baseline, ts, tp) {
        AppearedMeaning(baseline, ts, tp);
        forall i | 0 <= i < |ts| && Applies(ts[i]) ensures ReplacesAt(ts, i) { }
      }
    }
  }

  // ---- Unchanged, although there are transitions ----

  ghost predicate UnchangedAsDocumented(baseline: Instances, ts: seq<RouteTransition>, tp: TransitPredicate) {
    CategoryOf(Simulate(baseline, ts, tp)).Unchanged? ==> ts == []
  }

  /** One transition that empties nothing, leaves nothing off transit and has no shape. */
  lemma {:induction false} OneQuietTransition(baseline: Instances, t: RouteTransition, tp: TransitPredicate)
    requires ShapeOf(t, tp) == None && Acted(baseline, t) != map[] && AnyMatching(Acted(baseline, t), tp)
    ensures !UnchangedAsDocumented(baseline, [t], tp)
  {
    CategoryMeaning(baseline, [t], tp);
    NothingDeserved(baseline, t, tp);
  }

  lemma {:induction false} NothingDeserved(baseline: Instances, t: RouteTransition, tp: TransitPredicate)
    requires ShapeOf(t, tp) == None && Acted(baseline, t) != map[] && AnyMatching(Acted(baseline, t), tp)
    ensures DeservedCategory(baseline, [t], tp) == Unchanged
  {
    var m := Moment(baseline, t, Acted(baseline, t));
    OneMoment(baseline, t);
    forall c ensures !Marks(t, m.after, tp, c) { }
    assert forall i :: 0 <= i < |[m]| ==> [m][i] == m;
  }

  lemma {:induction false} OneMoment(baseline: Instances, t: RouteTransition)
    ensures Trace(baseline, [t]) == [Moment(baseline, t, Acted(baseline, t))]
  {
    assert [t][..0] == [];
    assert ActiveAfter(baseline, [t]) == Acted(baseline, t);
    assert Trace(baseline, [t]) == [] + [Moment(baseline, t, Acted(baseline, t))];
  }

  function Quiet(stream: StreamKey, kind: TransitionKind): RouteTransition {
    RouteTransition(RouteKey(stream, None), None, None, 0, kind, NO_EFFECTS, Event, NO_SOURCE)
  }

  /** A transition of any kind can go unnoticed. */
  lemma QuietOfAnyKind(stream: StreamKey, kind: TransitionKind)
    ensures !UnchangedAsDocumented(TwoOnTransit(stream, None, Some(0)), [Quiet(stream, kind)], ContainsAny([1]))
  {
    var baseline, t, tp := TwoOnTransit(stream, None, Some(0)), Quiet(stream, kind), ContainsAny([1]);
    var k := RouteKey(stream, Some(0));
    assert k in Acted(baseline, t) && Acted(baseline, t)[k] == Route(ON_TRANSIT);
    assert Via(tp, Route(ON_TRANSIT)) by { assert 1 in [1]; }
    OneQuietTransition(baseline, t, tp);
  }

  /** The transition empties the stream, leaves it off the transit, or is a replacement whose shape counts. */
  predicate Noticed(m: Moment, tp: TransitPredicate) {
    || Empties(m) || OffTransit(m.after, tp)
    || (ShapeOf(m.t, tp).Some? && !ShapeOf(m.t, tp).value.PathReturnedToRequiredTransit?
        && !ShapeOf(m.t, tp).value.GenericPathChange?)
  }

  /** The moment puts the stream into some category. */
  predicate Categorises(m: Moment, tp: TransitPredicate) {
    || Empties(m)
    || Marks(m.t, m.after, tp, DepartedTransitPath)
    || Marks(m.t, m.after, tp, PathChangedStillViaTransit)
    || Marks(m.t, m.after, tp, PrependOnly)
  }

  lemma NoticedMeans(m: Moment, tp: TransitPredicate)
    ensures Noticed(m, tp) <==> Categorises(m, tp)
  {
  }

  ghost predicate EverNoticed(tr: seq<Moment>, tp: TransitPredicate) {
    exists i :: 0 <= i < |tr| && Noticed(tr[i], tp)
  }

  lemma EverMarked(tr: seq<Moment>, tp: TransitPredicate, c: StreamCategory)
    requires c in {DepartedTransitPath, PathChangedStillViaTransit, PrependOnly} && Marked(tr, tp, c)
    ensures EverNoticed(tr, tp)
  {
    var i :| 0 <= i < |tr| && Marks(tr[i].t, tr[i].after, tp, c);
    NoticedMeans(tr[i], tp);
  }

  /** A stream is unchanged exactly when no moment of its run is noticed. */
  lemma {:induction false} UnchangedMeaning(baseline: Instances, ts: seq<RouteTransition>, tp: TransitPredicate)
    ensures CategoryOf(Simulate(baseline, ts, tp)).Unchanged? <==> !EverNoticed(Trace(baseline, ts), tp)
  {
    var tr := Trace(baseline, ts);
    CategoryMeaning(baseline, ts, tp);
    if EverNoticed(tr, tp) {
      var i :| 0 <= i < |tr| && Noticed(tr[i], tp);
      NoticedMeans(tr[i], tp);
      assert Empties(tr[i]) || Marked(tr, tp, DepartedTransitPath) || Marked(tr, tp, PathChangedStillViaTransit)
        || Marked(tr, tp, PrependOnly);
    } else {
      forall i | 0 <= i < |tr| ensures !Empties(tr[i]) { assert !Noticed(tr[i], tp); }
      forall c | c in {DepartedTransitPath, PathChangedStillViaTransit, PrependOnly} ensures !Marked(tr, tp, c) {
        if Marked(tr, tp, c) { EverMarked(tr, tp, c); }
      }
    }
  }

  /** A run is as documented exactly when it is empty or some moment of it is noticed. */
  lemma {:induction false} UnchangedAsDocumentedExactly(
      baseline: Instances, ts: seq<RouteTransition>, tp: TransitPredicate)
    ensures UnchangedAsDocumented(baseline, ts, tp) <==> ts == [] || EverNoticed(Trace(baseline, ts), tp)
  {
    UnchangedMeaning(baseline, ts, tp);
  }

  // ---- Withdrawn twice, absent once ----

  function FirstGoes(stream: StreamKey, p: Option<U32>): RouteTransition {
    Withdraws(stream, p, Some(Route(ON_TRANSIT)), 10)
  }

  function GoesAgain(stream: StreamKey, p: Option<U32>): RouteTransition { Withdraws(stream, p, None, 20) }

  lemma {:induction false} TraceOfTwo(baseline: Instances, t: RouteTransition, u: RouteTransition)
    ensures
      var middle := Acted(baseline, t);
      && Trace(baseline, [t, u]) == [Moment(baseline, t, middle), Moment(middle, u, Acted(middle, u))]
      && ActiveAfter(baseline, [t, u][..1]) == middle
  {
    var middle := Acted(baseline, t);
    assert [t, u][..1] == [t] && [t][..0] == [];
    assert ActiveAfter(baseline, [t]) == middle;
    assert Trace(baseline, [t]) == [] + [Moment(baseline, t, middle)];
  }

  lemma {:induction false} TimesOfTwo(a: Moment, b: Moment, p: Moment -> bool)
    ensures Times([a, b], p) == One(p(a)) + One(p(b))
  {
    assert [a, b] == [a] + [b] && [] + [a] == [a];
    FilterSnoc([a], b, p);
    FilterSnoc([], a, p);
  }

  lemma {:induction false} LastOfTwo(a: Moment, b: Moment, p: Moment -> bool)
    ensures LastMatch([a, b], p) == if p(b) then Some(b) else if p(a) then Some(a) else None
  {
    assert [a, b] == [a] + [b] && [] + [a] == [a];
    LastMatchSnoc([a], b, p);
    LastMatchSnoc([], a, p);
  }

  /** The second withdrawal finds nothing: it still counts, and moves the time and what goes with it. */
  lemma {:induction false} WithdrawnTwice(stream: StreamKey, p: Option<U32>, tp: TransitPredicate)
    ensures
      var baseline, ts := map[RouteKey(stream, p) := Route(ON_TRANSIT)], [FirstGoes(stream, p), GoesAgain(stream, p)];
      var l, tr := LedgerAfter(baseline, ts, tp), Trace(baseline, ts);
      && l.withdrawalCount == 2 && Times(tr, GoesAbsent) == 1
      && l.withdrawalTime == Some(20) && TimeOfMatch(LastMatch(tr, GoesAbsent)) == Some(10)
      && l.transitAtWithdrawal == None
      && l.activeBeforeAbsence == 1 && ActiveAfter(baseline, ts[..1]) == map[]
  {
    var baseline, first, second :=
      map[RouteKey(stream, p) := Route(ON_TRANSIT)], FirstGoes(stream, p), GoesAgain(stream, p);
    var a, b := Moment(baseline, first, map[]), Moment(map[], second, map[]);
    assert Acted(baseline, first) == map[] && Acted(map[], second) == map[];
    assert RouteKey(stream, p) in baseline;
    TraceOfTwo(baseline, first, second);
    TimesOfTwo(a, b, GoesAbsent);
    TimesOfTwo(a, b, Empties);
    LastOfTwo(a, b, GoesAbsent);
    LastOfTwo(a, b, Empties);
    CountersMeaning(baseline, [first, second], tp);
    LastWithdrawalMeaning(baseline, [first, second], tp);
  }

  /**
   * The withdrawal time is that of the last change from visible to absent exactly when the last
   * emptying withdrawal found something.
   */
  lemma {:induction false} WithdrawalTimeExactly(baseline: Instances, ts: seq<RouteTransition>, tp: TransitPredicate)
    ensures
      var tr := Trace(baseline, ts);
      var last := LastMatch(tr, Empties);
      && LedgerAfter(baseline, ts, tp).withdrawalTime == TimeOfMatch(last)
      && (last == LastMatch(tr, GoesAbsent) <==> last.None? || last.value.before != map[])
  {
    LastWithdrawalMeaning(baseline, ts, tp);
    LastAbsence(baseline, ts);
  }

  lemma {:induction false} LastAbsence(baseline: Instances, ts: seq<RouteTransition>)
    ensures
      var tr := Trace(baseline, ts);
      var last, crossing := LastMatch(tr, Empties), LastMatch(tr, GoesAbsent);
      && (last.None? ==> crossing.None?)
      && (last.Some? && last.value.before != map[] ==> crossing == last)
      && (crossing.Some? ==> crossing.value.before != map[])
  {
    if ts != [] {
      var init, t := ts[..|ts| - 1], ts[|ts| - 1];
      LastAbsence(baseline, init);
      var m := Moment(ActiveAfter(baseline, init), t, ActiveAfter(baseline, ts));
      LastMatchSnoc(Trace(baseline, init), m, Empties);
      LastMatchSnoc(Trace(baseline, init), m, GoesAbsent);
      assert GoesAbsent(m) ==> Empties(m);
    }
  }
}
