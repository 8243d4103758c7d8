/** The verdict: expectation against observation, with set-based rules over stream lifecycles. */
module Assess {
  import opened Prelude
  import opened Seqs
  import opened Routes
  import opened Lifecycle
  import opened LifecycleProofs
  import opened LifecycleRuns
  import opened Sorting
  import opened Cohort
  import opened Streams
  import opened Departures

  datatype ExpectationKind =
    | Redundant
    | NonRedundant
    | ParticipantRelationshipUnavailable
    | PeerRelationshipUnavailable
    | UnknownExpectation

  datatype Verdict =
    | ExpectedRedundantImpact
    | ExpectedLossOfReachability
    | ExpectedParticipantUnavailability
    | ExpectedAlternateRouting
    | PartialImpact
    | UnexpectedContinuedInternet2Path
    | PolicyChangeObserved
    | RedundancyFailureObserved
    | LessImpactThanExpected
    | NoObservableBgpImpact
    | InsufficientVisibility
    | Indeterminate

  const INTERNET2: U32 := 11537

  // ---- Verdicts over lifecycles ----

  predicate Strong(l: StreamLifecycle) { !l.flags.addPathAmbiguous }

  predicate WasWithdrawn(l: StreamLifecycle) { l.wasWithdrawn }

  predicate HasDeparted(l: StreamLifecycle) { l.category.DepartedTransitPath? }

  predicate OnlyPolicy(l: StreamLifecycle) { l.category.Unchanged? || l.category.PrependOnly? }

  predicate Affected(l: StreamLifecycle) { WasWithdrawn(l) || HasDeparted(l) }

  predicate Always<T>(xs: seq<T>, p: T -> bool) { forall i :: 0 <= i < |xs| ==> p(xs[i]) }

  predicate Has<T>(xs: seq<T>, p: T -> bool) { exists i :: 0 <= i < |xs| && p(xs[i]) }

  /** The rule over the unambiguous streams. */
  function StrongVerdict(strong: seq<StreamLifecycle>): Verdict {
    var withdrawn, departed := |Filter(strong, WasWithdrawn)|, |Filter(strong, HasDeparted)|;
    var allAffected := withdrawn + departed == |strong| && (withdrawn > 0 || departed > 0);
    var someAffected := withdrawn > 0 || departed > 0;
    if Always(strong, OnlyPolicy) && !someAffected then PolicyChangeObserved
    else if departed > 0 && withdrawn == 0 then ExpectedAlternateRouting
    else if allAffected then ExpectedParticipantUnavailability
    else if someAffected then PartialImpact
    else UnexpectedContinuedInternet2Path
  }

  function ParticipantVerdict(lcs: seq<StreamLifecycle>): Verdict {
    var strong := Filter(lcs, Strong);
    if lcs == [] then UnexpectedContinuedInternet2Path
    else if strong == [] then InsufficientVisibility
    else
      var verdict := StrongVerdict(strong);
      if !Always(lcs, Strong) && (verdict.UnexpectedContinuedInternet2Path? || verdict.PolicyChangeObserved?)
      then InsufficientVisibility
      else verdict
  }

  // ---- Verdicts over transitions ----

  predicate IsPathChange(t: RouteTransition) { t.kind.PathReplacement? }

  predicate IsSessionReset(t: RouteTransition) { t.kind.SessionReset? }

  /** A path replacement away from Internet2. */
  predicate LeavesInternet2(t: RouteTransition) {
    t.kind.PathReplacement? && INTERNET2 in PathOf(t.from) && INTERNET2 !in PathOf(t.to)
  }

  function FallbackVerdict(ts: seq<RouteTransition>): Verdict {
    var withdrawals, departures := Has(ts, IsWithdrawal), Has(ts, LeavesInternet2);
    if withdrawals && !departures then ExpectedParticipantUnavailability
    else if departures && !withdrawals then ExpectedAlternateRouting
    else if withdrawals && departures then PartialImpact
    else UnexpectedContinuedInternet2Path
  }

  function DeriveVerdict(
      kind: ExpectationKind, ts: seq<RouteTransition>, unknownContinuity: bool,
      lifecycles: Option<seq<StreamLifecycle>>): Verdict
  {
    var withdrawals, pathChanges := Has(ts, IsWithdrawal), Has(ts, IsPathChange);
    if unknownContinuity || Has(ts, IsSessionReset) then InsufficientVisibility
    else if ts == [] then
      match kind
      case ParticipantRelationshipUnavailable => UnexpectedContinuedInternet2Path
      case NonRedundant => LessImpactThanExpected
      case PeerRelationshipUnavailable => UnexpectedContinuedInternet2Path
      case _ => NoObservableBgpImpact
    else
      match kind
      case Redundant =>
        if withdrawals then RedundancyFailureObserved
        else if pathChanges && !withdrawals then ExpectedRedundantImpact
        else NoObservableBgpImpact
      case NonRedundant => if withdrawals then ExpectedLossOfReachability else LessImpactThanExpected
      case ParticipantRelationshipUnavailable =>
        (match lifecycles case Some(lcs) => ParticipantVerdict(lcs) case None => FallbackVerdict(ts))
      case PeerRelationshipUnavailable =>
        if withdrawals then ExpectedParticipantUnavailability
        else if pathChanges then ExpectedAlternateRouting
        else UnexpectedContinuedInternet2Path
      case UnknownExpectation => Verdict.Indeterminate
  }

  // ---- Counting ----

  lemma {:induction false} PassingSome<T>(xs: seq<T>, p: T -> bool)
    ensures |Filter(xs, p)| > 0 <==> Has(xs, p)
  {
    if Filter(xs, p) != [] {
      FilterMember(xs, p, Filter(xs, p)[0]);
    }
    if i :| 0 <= i < |xs| && p(xs[i]) {
      FilterMember(xs, p, xs[i]);
    }
  }

  /** Two properties that exclude each other count up to everything exactly when every element has one. */
  lemma {:induction false} CountsCover<T>(xs: seq<T>, p: T -> bool, q: T -> bool, either: T -> bool)
    requires forall i :: 0 <= i < |xs| ==> !(p(xs[i]) && q(xs[i])) && (either(xs[i]) <==> p(xs[i]) || q(xs[i]))
    ensures |Filter(xs, p)| + |Filter(xs, q)| <= |xs|
    ensures |Filter(xs, p)| + |Filter(xs, q)| == |xs| <==> Always(xs, either)
  {
    if xs != [] {
      CountsCover(xs[1..], p, q, either);
      assert Always(xs, either) <==> either(xs[0]) && Always(xs[1..], either) by {
        if Always(xs, either) {
          forall i | 0 <= i < |xs| - 1 ensures either(xs[1..][i]) { assert either(xs[i + 1]); }
        }
        if either(xs[0]) && Always(xs[1..], either) {
          forall i | 0 <= i < |xs| ensures either(xs[i]) { assert i > 0 ==> either(xs[1..][i - 1]); }
        }
      }
    }
  }

  // ---- What the verdicts mean ----

  /** Withdrawn streams are exactly those of the category: what the count relies on. */
  ghost predicate Consistent(lcs: seq<StreamLifecycle>) {
    forall i :: 0 <= i < |lcs| ==> (lcs[i].wasWithdrawn <==> lcs[i].category.Withdrawn?)
  }

  lemma {:induction false} StrongOnes(lcs: seq<StreamLifecycle>)
    ensures forall i :: 0 <= i < |Filter(lcs, Strong)| ==>
      Strong(Filter(lcs, Strong)[i]) && Filter(lcs, Strong)[i] in lcs
    ensures Consistent(lcs) ==> Consistent(Filter(lcs, Strong))
  {
    forall i | 0 <= i < |Filter(lcs, Strong)| ensures Strong(Filter(lcs, Strong)[i]) && Filter(lcs, Strong)[i] in lcs {
      FilterMember(lcs, Strong, Filter(lcs, Strong)[i]);
    }
  }

  lemma StrongVerdictMeaning(strong: seq<StreamLifecycle>)
    requires Consistent(strong)
    ensures StrongVerdict(strong) == ExpectedParticipantUnavailability <==>
      Always(strong, Affected) && Has(strong, WasWithdrawn)
    ensures StrongVerdict(strong) == ExpectedAlternateRouting <==>
      Has(strong, HasDeparted) && !Has(strong, WasWithdrawn)
    ensures StrongVerdict(strong) == PartialImpact <==> Has(strong, WasWithdrawn) && !Always(strong, Affected)
    ensures StrongVerdict(strong) == PolicyChangeObserved <==> Always(strong, OnlyPolicy)
  {
    PassingSome(strong, WasWithdrawn);
    PassingSome(strong, HasDeparted);
    CountsCover(strong, WasWithdrawn, HasDeparted, Affected);
  }

  predicate StrongAndAffected(l: StreamLifecycle) { Strong(l) ==> Affected(l) }

  predicate StrongAndWithdrawn(l: StreamLifecycle) { Strong(l) && WasWithdrawn(l) }

  predicate StrongAndDeparted(l: StreamLifecycle) { Strong(l) && HasDeparted(l) }

  lemma {:induction false} OverStrong(lcs: seq<StreamLifecycle>)
    ensures Always(Filter(lcs, Strong), Affected) <==> Always(lcs, StrongAndAffected)
    ensures Has(Filter(lcs, Strong), WasWithdrawn) <==> Has(lcs, StrongAndWithdrawn)
    ensures Has(Filter(lcs, Strong), HasDeparted) <==> Has(lcs, StrongAndDeparted)
  {
    var strong := Filter(lcs, Strong);
    forall x ensures x in strong <==> x in lcs && Strong(x) { FilterMember(lcs, Strong, x); }
    if Always(strong, Affected) {
      forall i | 0 <= i < |lcs| ensures StrongAndAffected(lcs[i]) {
        if Strong(lcs[i]) { assert lcs[i] in strong; }
      }
    }
    if Always(lcs, StrongAndAffected) {
      forall i | 0 <= i < |strong| ensures Affected(strong[i]) {
        assert strong[i] in strong;
      }
    }
    if i :| 0 <= i < |lcs| && StrongAndWithdrawn(lcs[i]) { assert lcs[i] in strong; }
    if i :| 0 <= i < |strong| && WasWithdrawn(strong[i]) { assert strong[i] in strong; }
    if i :| 0 <= i < |lcs| && StrongAndDeparted(lcs[i]) { assert lcs[i] in strong; }
    if i :| 0 <= i < |strong| && HasDeparted(strong[i]) { assert strong[i] in strong; }
  }

  /**
   * Past the gate, unavailability is concluded exactly when every unambiguous stream was
   * withdrawn or departed and at least one was withdrawn; alternate routing when some
   * departed and none was withdrawn; partial impact when some were withdrawn and some unaffected.
   */
  lemma ParticipantVerdictMeaning(lcs: seq<StreamLifecycle>)
    requires Consistent(lcs)
    ensures ParticipantVerdict(lcs) == ExpectedParticipantUnavailability <==>
      Always(lcs, StrongAndAffected) && Has(lcs, StrongAndWithdrawn)
    ensures ParticipantVerdict(lcs) == ExpectedAlternateRouting <==>
      Has(lcs, StrongAndDeparted) && !Has(lcs, StrongAndWithdrawn)
    ensures ParticipantVerdict(lcs) == PartialImpact <==>
      Has(lcs, StrongAndWithdrawn) && !Always(lcs, StrongAndAffected)
  {
    StrongOnes(lcs);
    OverStrong(lcs);
    StrongVerdictMeaning(Filter(lcs, Strong));
  }

  /** An affected unambiguous stream always shows: no other verdict hides it. */
  lemma NoImpactMeansNoneAffected(lcs: seq<StreamLifecycle>)
    requires Consistent(lcs)
    requires ParticipantVerdict(lcs) in {UnexpectedContinuedInternet2Path, PolicyChangeObserved}
    ensures Always(lcs, Strong) && !Has(lcs, Affected)
  {
    ParticipantVerdictMeaning(lcs);
    assert !Has(lcs, StrongAndWithdrawn) && !Has(lcs, StrongAndDeparted);
    forall i | 0 <= i < |lcs| ensures !Affected(lcs[i]) {
      assert Strong(lcs[i]) && !StrongAndWithdrawn(lcs[i]) && !StrongAndDeparted(lcs[i]);
    }
  }

  lemma PairFiltered<T>(a: T, b: T, p: T -> bool)
    ensures Filter([a, b], p) == (if p(a) then [a] else []) + (if p(b) then [b] else [])
  {
    assert [a, b] == [a] + [b];
    FilterConcat([a], [b], p);
    assert [a][1..] == [] && [b][1..] == [];
  }

  /** Without the invariant of the lifecycles a stream can be counted twice and hide an unaffected one. */
  lemma DoubleCountingMisleads(a: StreamLifecycle, b: StreamLifecycle)
    requires Strong(a) && a.wasWithdrawn && HasDeparted(a)
    requires Strong(b) && !Affected(b)
    ensures ParticipantVerdict([a, b]) == ExpectedParticipantUnavailability
  {
    PairFiltered(a, b, Strong);
    PairFiltered(a, b, WasWithdrawn);
    PairFiltered(a, b, HasDeparted);
    assert !OnlyPolicy([a, b][0]);
  }

  // ---- Order, and ambiguous streams ----

  lemma {:induction false} SameElements<T>(xs: seq<T>, ys: seq<T>, p: T -> bool)
    requires multiset(xs) == multiset(ys)
    ensures Has(xs, p) <==> Has(ys, p)
    ensures Always(xs, p) <==> Always(ys, p)
    ensures |Filter(xs, p)| == |Filter(ys, p)|
  {
    forall x ensures x in xs <==> x in ys {
      assert x in xs <==> x in multiset(xs);
    }
    if i :| 0 <= i < |xs| && p(xs[i]) { assert xs[i] in ys; }
    if i :| 0 <= i < |ys| && p(ys[i]) { assert ys[i] in xs; }
    if Always(xs, p) { forall i | 0 <= i < |ys| ensures p(ys[i]) { assert ys[i] in xs; } }
    if Always(ys, p) { forall i | 0 <= i < |xs| ensures p(xs[i]) { assert xs[i] in ys; } }
    FilterPermutes(xs, ys, p);
    assert |multiset(Filter(xs, p))| == |multiset(Filter(ys, p))|;
  }

  lemma StrongVerdictIgnoresOrder(xs: seq<StreamLifecycle>, ys: seq<StreamLifecycle>)
    requires multiset(xs) == multiset(ys)
    ensures StrongVerdict(xs) == StrongVerdict(ys)
  {
    assert |multiset(xs)| == |multiset(ys)|;
    SameElements(xs, ys, WasWithdrawn);
    SameElements(xs, ys, HasDeparted);
    SameElements(xs, ys, OnlyPolicy);
  }

  lemma ParticipantVerdictIgnoresOrder(xs: seq<StreamLifecycle>, ys: seq<StreamLifecycle>)
    requires multiset(xs) == multiset(ys)
    ensures ParticipantVerdict(xs) == ParticipantVerdict(ys)
  {
    assert |multiset(xs)| == |multiset(ys)|;
    SameElements(xs, ys, Strong);
    FilterPermutes(xs, ys, Strong);
    StrongVerdictIgnoresOrder(Filter(xs, Strong), Filter(ys, Strong));
  }

  /** Neither the order of the transitions nor that of the streams matters. */
  lemma VerdictIgnoresOrder(
      kind: ExpectationKind, ts: seq<RouteTransition>, us: seq<RouteTransition>, unknownContinuity: bool,
      xs: seq<StreamLifecycle>, ys: seq<StreamLifecycle>)
    requires multiset(ts) == multiset(us) && multiset(xs) == multiset(ys)
    ensures DeriveVerdict(kind, ts, unknownContinuity, Some(xs)) == DeriveVerdict(kind, us, unknownContinuity, Some(ys))
    ensures DeriveVerdict(kind, ts, unknownContinuity, None) == DeriveVerdict(kind, us, unknownContinuity, None)
  {
    assert |multiset(ts)| == |multiset(us)|;
    SameElements(ts, us, IsWithdrawal);
    SameElements(ts, us, IsPathChange);
    SameElements(ts, us, IsSessionReset);
    SameElements(ts, us, LeavesInternet2);
    ParticipantVerdictIgnoresOrder(xs, ys);
  }

  predicate Weak(l: StreamLifecycle) { !Strong(l) }

  lemma {:induction false} NoneStrong(xs: seq<StreamLifecycle>)
    requires Always(xs, Weak)
    ensures Filter(xs, Strong) == []
  {
    if Filter(xs, Strong) != [] {
      FilterMember(xs, Strong, Filter(xs, Strong)[0]);
    }
  }

  /** Ambiguous streams, wherever they are listed, leave the verdict alone or make it insufficient. */
  lemma AmbiguousStreamsOnlyWeaken(lcs: seq<StreamLifecycle>, extra: seq<StreamLifecycle>, all: seq<StreamLifecycle>)
    requires Always(extra, Weak) && multiset(all) == multiset(lcs) + multiset(extra)
    ensures ParticipantVerdict(all) in {ParticipantVerdict(lcs), InsufficientVisibility}
    ensures ParticipantVerdict(lcs) == InsufficientVisibility ==> ParticipantVerdict(all) == InsufficientVisibility
  {
    var together := lcs + extra;
    assert multiset(together) == multiset(all);
    ParticipantVerdictIgnoresOrder(all, together);
    FilterConcat(lcs, extra, Strong);
    NoneStrong(extra);
    assert Filter(together, Strong) == Filter(lcs, Strong);
    if extra == [] {
      assert together == lcs;
    } else {
      assert !Strong(extra[0]) && together[|lcs|] == extra[0];
      assert !Always(together, Strong);
    }
    if lcs == [] {
      assert Filter(lcs, Strong) == [];
    }
  }

  // ---- From the run to the verdict ----

  lemma ConclusionCategory(
      lc: StreamLifecycle, baseline: Instances, s: Sim, ambiguous: bool, cooldownEnd: int, tp: TransitPredicate)
    requires Concludes(lc, lc.stream, baseline, s, ambiguous, cooldownEnd, tp)
    ensures lc.category == CategoryOf(s)
    ensures lc.wasWithdrawn <==> lc.category.Withdrawn?
  {
  }

  function RunOf(ts: seq<RouteTransition>, stream: StreamKey): seq<RouteTransition> {
    SortBy(TransitionsOf(ts, stream), Chronological)
  }

  lemma RecordCategory(
      lc: StreamLifecycle, ts: seq<RouteTransition>, cohort: FrozenCohort, cooldownEnd: int, tp: TransitPredicate)
    requires IsRecord(lc, ts, cohort, cooldownEnd, tp)
    ensures lc.category == DeservedCategory(BaselineOf(cohort, lc.stream), RunOf(ts, lc.stream), tp)
    ensures lc.wasWithdrawn <==> lc.category.Withdrawn?
  {
    var baseline, mine := BaselineOf(cohort, lc.stream), RunOf(ts, lc.stream);
    ConclusionCategory(lc, baseline, Simulate(baseline, mine, tp), Ambiguous(baseline, mine), cooldownEnd, tp);
    CategoryMeaning(baseline, mine, tp);
  }

  lemma RecordsConsistent(
      lcs: seq<StreamLifecycle>, ts: seq<RouteTransition>, cohort: FrozenCohort, cooldownEnd: int,
      tp: TransitPredicate)
    requires AreLifecycles(lcs, ts, cohort, cooldownEnd, tp)
    ensures Consistent(lcs)
  {
    forall i | 0 <= i < |lcs| ensures lcs[i].wasWithdrawn <==> lcs[i].category.Withdrawn? {
      RecordCategory(lcs[i], ts, cohort, cooldownEnd, tp);
    }
  }

  /** Some withdrawal of the run left the stream without any route. */
  ghost predicate RunLosesEverything(baseline: Instances, run: seq<RouteTransition>) {
    exists i :: 0 <= i < |Trace(baseline, run)| && Empties(Trace(baseline, run)[i])
  }

  ghost function LostEverything(cohort: FrozenCohort, ts: seq<RouteTransition>): StreamKey -> bool {
    (stream: StreamKey) => RunLosesEverything(BaselineOf(cohort, stream), RunOf(ts, stream))
  }

  /** Some transition of the run took an instance off the transit, or left the stream without a matching one. */
  ghost function MarkedDeparted(cohort: FrozenCohort, ts: seq<RouteTransition>, tp: TransitPredicate): StreamKey -> bool
  {
    (stream: StreamKey) => Marked(Trace(BaselineOf(cohort, stream), RunOf(ts, stream)), tp, DepartedTransitPath)
  }

  ghost predicate Evidenced(lc: StreamLifecycle, lost: StreamKey -> bool, left: StreamKey -> bool) {
    (WasWithdrawn(lc) ==> lost(lc.stream)) && (HasDeparted(lc) ==> left(lc.stream))
  }

  lemma {:induction false} CategoryEvidence(baseline: Instances, run: seq<RouteTransition>, tp: TransitPredicate)
    ensures DeservedCategory(baseline, run, tp).Withdrawn? ==> RunLosesEverything(baseline, run)
    ensures DeservedCategory(baseline, run, tp).DepartedTransitPath? ==>
      Marked(Trace(baseline, run), tp, DepartedTransitPath)
  {
  }

  lemma RecordEvidence(
      lc: StreamLifecycle, ts: seq<RouteTransition>, cohort: FrozenCohort, cooldownEnd: int, tp: TransitPredicate)
    requires Records(ts, cohort, cooldownEnd, tp)(lc)
    ensures WasWithdrawn(lc) ==> LostEverything(cohort, ts)(lc.stream)
    ensures HasDeparted(lc) ==> MarkedDeparted(cohort, ts, tp)(lc.stream)
  {
    RecordCategory(lc, ts, cohort, cooldownEnd, tp);
    CategoryEvidence(BaselineOf(cohort, lc.stream), RunOf(ts, lc.stream), tp);
  }

  lemma EveryRecordEvidenced(ts: seq<RouteTransition>, cohort: FrozenCohort, cooldownEnd: int, tp: TransitPredicate)
    ensures forall lc: StreamLifecycle :: Records(ts, cohort, cooldownEnd, tp)(lc) ==>
      Evidenced(lc, LostEverything(cohort, ts), MarkedDeparted(cohort, ts, tp))
  {
    forall lc: StreamLifecycle | Records(ts, cohort, cooldownEnd, tp)(lc)
      ensures Evidenced(lc, LostEverything(cohort, ts), MarkedDeparted(cohort, ts, tp))
    {
      RecordEvidence(lc, ts, cohort, cooldownEnd, tp);
    }
  }

  lemma PastTheGate(lcs: seq<StreamLifecycle>, ts: seq<RouteTransition>, unknownContinuity: bool)
    requires DeriveVerdict(ParticipantRelationshipUnavailable, ts, unknownContinuity, Some(lcs))
      == ExpectedParticipantUnavailability
    ensures !unknownContinuity && !Has(ts, IsSessionReset)
    ensures ParticipantVerdict(lcs) == ExpectedParticipantUnavailability
  {
  }

  /**
   * Unavailability concluded from simulated lifecycles says something about every run:
   * each unambiguous stream lost all its routes or had an instance leave the transit,
   * and one lost all.
   */
  lemma UnavailabilityIsObserved(
      lcs: seq<StreamLifecycle>, ts: seq<RouteTransition>, cohort: FrozenCohort, cooldownEnd: int,
      tp: TransitPredicate, unknownContinuity: bool)
    requires AreLifecycles(lcs, ts, cohort, cooldownEnd, tp)
    requires DeriveVerdict(ParticipantRelationshipUnavailable, ts, unknownContinuity, Some(lcs))
      == ExpectedParticipantUnavailability
    ensures !unknownContinuity && !Has(ts, IsSessionReset)
    ensures forall i :: 0 <= i < |lcs| && Strong(lcs[i]) ==>
      LostEverything(cohort, ts)(lcs[i].stream) || MarkedDeparted(cohort, ts, tp)(lcs[i].stream)
    ensures exists i :: 0 <= i < |lcs| && Strong(lcs[i]) && LostEverything(cohort, ts)(lcs[i].stream)
  {
    RecordsConsistent(lcs, ts, cohort, cooldownEnd, tp);
    PastTheGate(lcs, ts, unknownContinuity);
    EveryRecordEvidenced(ts, cohort, cooldownEnd, tp);
    EvidenceForAll(lcs, Records(ts, cohort, cooldownEnd, tp), LostEverything(cohort, ts),
      MarkedDeparted(cohort, ts, tp));
  }

  lemma EvidenceForAll(
      lcs: seq<StreamLifecycle>, good: StreamLifecycle -> bool, lost: StreamKey -> bool, left: StreamKey -> bool)
    requires All(lcs, good) && Consistent(lcs) && ParticipantVerdict(lcs) == ExpectedParticipantUnavailability
    requires forall lc: StreamLifecycle :: good(lc) ==> Evidenced(lc, lost, left)
    ensures forall i :: 0 <= i < |lcs| && Strong(lcs[i]) ==> lost(lcs[i].stream) || left(lcs[i].stream)
    ensures exists i :: 0 <= i < |lcs| && Strong(lcs[i]) && lost(lcs[i].stream)
  {
    ParticipantVerdictMeaning(lcs);
    forall i | 0 <= i < |lcs| && Strong(lcs[i]) ensures lost(lcs[i].stream) || left(lcs[i].stream) {
      assert good(lcs[i]) && StrongAndAffected(lcs[i]);
    }
    var i :| 0 <= i < |lcs| && StrongAndWithdrawn(lcs[i]);
    assert good(lcs[i]);
  }

  /** One path identifier, or none, throughout the run. */
  ghost predicate SingleInstance(stream: StreamKey, baseline: Instances, run: seq<RouteTransition>) {
    exists ids :: |ids| <= 1 && Among(stream, ids, baseline, run)
  }

  ghost function WasSingle(cohort: FrozenCohort, ts: seq<RouteTransition>): StreamKey -> bool {
    (s: StreamKey) => SingleInstance(s, BaselineOf(cohort, s), RunOf(ts, s))
  }

  ghost function WasOffTransit(cohort: FrozenCohort, ts: seq<RouteTransition>, tp: TransitPredicate): StreamKey -> bool
  {
    (s: StreamKey) => WentOffTransit(BaselineOf(cohort, s), RunOf(ts, s), tp)
  }

  lemma SingleInstanceLeft(cohort: FrozenCohort, ts: seq<RouteTransition>, tp: TransitPredicate, s: StreamKey)
    requires WasSingle(cohort, ts)(s) && MarkedDeparted(cohort, ts, tp)(s)
    ensures WasOffTransit(cohort, ts, tp)(s)
  {
    var ids :| |ids| <= 1 && Among(s, ids, BaselineOf(cohort, s), RunOf(ts, s));
    MarkedOff(s, ids, BaselineOf(cohort, s), RunOf(ts, s), tp);
  }

  /** An unambiguous stream without several instances was really absent, or off the transit, at some point. */
  lemma UnavailabilityOfSingleInstances(
      lcs: seq<StreamLifecycle>, ts: seq<RouteTransition>, cohort: FrozenCohort, cooldownEnd: int,
      tp: TransitPredicate, unknownContinuity: bool)
    requires AreLifecycles(lcs, ts, cohort, cooldownEnd, tp)
    requires DeriveVerdict(ParticipantRelationshipUnavailable, ts, unknownContinuity, Some(lcs))
      == ExpectedParticipantUnavailability
    ensures forall i :: 0 <= i < |lcs| && Strong(lcs[i]) && WasSingle(cohort, ts)(lcs[i].stream) ==>
      LostEverything(cohort, ts)(lcs[i].stream) || WasOffTransit(cohort, ts, tp)(lcs[i].stream)
  {
    UnavailabilityIsObserved(lcs, ts, cohort, cooldownEnd, tp, unknownContinuity);
    var single, marked, off := WasSingle(cohort, ts), MarkedDeparted(cohort, ts, tp), WasOffTransit(cohort, ts, tp);
    forall s | single(s) && marked(s) ensures off(s) {
      SingleInstanceLeft(cohort, ts, tp, s);
    }
  }
}
