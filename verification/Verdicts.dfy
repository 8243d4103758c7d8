/** When each verdict is given: for every expectation, by the kinds and paths of the transitions alone. */
module Verdicts {
  import opened Prelude
  import opened Seqs
  import opened Routes
  import opened Lifecycle
  import opened Cohort
  import opened Streams
  import opened Assess

  // ---- What is seen in the transitions ----

  ghost predicate SomeWithdrawal(ts: seq<RouteTransition>) {
    exists i :: 0 <= i < |ts| && ts[i].kind == Withdrawal
  }

  ghost predicate SomePathReplacement(ts: seq<RouteTransition>) {
    exists i :: 0 <= i < |ts| && ts[i].kind.PathReplacement?
  }

  ghost predicate SomeSessionReset(ts: seq<RouteTransition>) {
    exists i :: 0 <= i < |ts| && ts[i].kind == SessionReset
  }

  /** The path replacement leads from a path with AS 11537 to none, or to one without. */
  ghost predicate Leaves11537(t: RouteTransition) {
    && t.kind.PathReplacement?
    && t.from.Some? && 11537 in t.from.value.attributes.asPath
    && (t.to.None? || 11537 !in t.to.value.attributes.asPath)
  }

  ghost predicate SomeDeparture(ts: seq<RouteTransition>) {
    exists i :: 0 <= i < |ts| && Leaves11537(ts[i])
  }

  /** The observation is complete: without it no verdict is strong. */
  ghost predicate Continuous(ts: seq<RouteTransition>, unknownContinuity: bool) {
    !unknownContinuity && !SomeSessionReset(ts)
  }

  lemma SeenMeans(ts: seq<RouteTransition>)
    ensures SomeWithdrawal(ts) <==> Has(ts, IsWithdrawal)
    ensures SomePathReplacement(ts) <==> Has(ts, IsPathChange)
    ensures SomeSessionReset(ts) <==> Has(ts, IsSessionReset)
    ensures SomeDeparture(ts) <==> Has(ts, LeavesInternet2)
  {
    forall i | 0 <= i < |ts| ensures Leaves11537(ts[i]) <==> LeavesInternet2(ts[i]) { }
    if SomeDeparture(ts) {
      var i :| 0 <= i < |ts| && Leaves11537(ts[i]);
      assert LeavesInternet2(ts[i]);
    }
    if Has(ts, LeavesInternet2) {
      var i :| 0 <= i < |ts| && LeavesInternet2(ts[i]);
      assert Leaves11537(ts[i]);
    }
  }

  // ---- What is seen in the lifecycles ----

  /** In records of the simulation withdrawn streams are those of category `Withdrawn`. */
  ghost predicate FromSimulation(lcs: seq<StreamLifecycle>) {
    forall i :: 0 <= i < |lcs| ==> (lcs[i].wasWithdrawn <==> lcs[i].category == StreamCategory.Withdrawn)
  }

  ghost predicate AmbiguousAt(lcs: seq<StreamLifecycle>, i: int) {
    0 <= i < |lcs| && lcs[i].flags.addPathAmbiguous
  }

  ghost predicate WithdrawnAt(lcs: seq<StreamLifecycle>, i: int) {
    0 <= i < |lcs| && !lcs[i].flags.addPathAmbiguous && lcs[i].wasWithdrawn
  }

  ghost predicate DepartedAt(lcs: seq<StreamLifecycle>, i: int) {
    0 <= i < |lcs| && !lcs[i].flags.addPathAmbiguous && lcs[i].category == DepartedTransitPath
  }

  ghost predicate UnaffectedAt(lcs: seq<StreamLifecycle>, i: int) {
    && 0 <= i < |lcs| && !lcs[i].flags.addPathAmbiguous
    && !lcs[i].wasWithdrawn && lcs[i].category != DepartedTransitPath
  }

  /** The path of an unaffected stream changed, but it stayed on the transit. */
  ghost predicate ChangedAt(lcs: seq<StreamLifecycle>, i: int) {
    UnaffectedAt(lcs, i) && lcs[i].category == PathChangedStillViaTransit
  }

  /** Some unambiguous stream was withdrawn, and all of them were withdrawn or departed. */
  ghost predicate AllDown(lcs: seq<StreamLifecycle>) {
    (exists i :: WithdrawnAt(lcs, i)) && forall i :: !UnaffectedAt(lcs, i)
  }

  ghost predicate PartlyDown(lcs: seq<StreamLifecycle>) {
    (exists i :: WithdrawnAt(lcs, i)) && exists i :: UnaffectedAt(lcs, i)
  }

  ghost predicate Rerouted(lcs: seq<StreamLifecycle>) {
    (exists i :: DepartedAt(lcs, i)) && forall i :: !WithdrawnAt(lcs, i)
  }

  ghost predicate NoneDown(lcs: seq<StreamLifecycle>) {
    forall i :: !WithdrawnAt(lcs, i) && !DepartedAt(lcs, i)
  }

  ghost predicate Unclear(lcs: seq<StreamLifecycle>) { (exists i :: AmbiguousAt(lcs, i)) && NoneDown(lcs) }

  ghost predicate Calm(lcs: seq<StreamLifecycle>) { (forall i :: !AmbiguousAt(lcs, i)) && NoneDown(lcs) }

  ghost predicate OnlyPolicyChanged(lcs: seq<StreamLifecycle>) {
    lcs != [] && Calm(lcs) && forall i :: !ChangedAt(lcs, i)
  }

  ghost predicate StillThere(lcs: seq<StreamLifecycle>) {
    Calm(lcs) && (lcs == [] || exists i :: ChangedAt(lcs, i))
  }

  lemma {:induction false} StrongMembers(lcs: seq<StreamLifecycle>)
    ensures Filter(lcs, Strong) == [] <==> forall i :: 0 <= i < |lcs| ==> AmbiguousAt(lcs, i)
    ensures Always(lcs, Strong) <==> forall i :: !AmbiguousAt(lcs, i)
    ensures Always(Filter(lcs, Strong), OnlyPolicy) <==> forall i :: 0 <= i < |lcs| && !AmbiguousAt(lcs, i) ==>
      lcs[i].category == Unchanged || lcs[i].category == PrependOnly
  {
    var strong := Filter(lcs, Strong);
    forall x ensures x in strong <==> x in lcs && Strong(x) { FilterMember(lcs, Strong, x); }
    if strong != [] {
      assert strong[0] in strong;
      var i :| 0 <= i < |lcs| && lcs[i] == strong[0];
      assert !AmbiguousAt(lcs, i);
    }
    forall i | 0 <= i < |lcs| && !AmbiguousAt(lcs, i) ensures lcs[i] in strong { assert lcs[i] in lcs; }
    if Always(strong, OnlyPolicy) {
      forall i | 0 <= i < |lcs| && !AmbiguousAt(lcs, i)
        ensures lcs[i].category == Unchanged || lcs[i].category == PrependOnly
      {
        var j :| 0 <= j < |strong| && strong[j] == lcs[i];
        assert OnlyPolicy(strong[j]);
      }
    }
    if forall i :: 0 <= i < |lcs| && !AmbiguousAt(lcs, i) ==>
      lcs[i].category == Unchanged || lcs[i].category == PrependOnly
    {
      forall j | 0 <= j < |strong| ensures OnlyPolicy(strong[j]) {
        assert strong[j] in strong;
        var i :| 0 <= i < |lcs| && lcs[i] == strong[j];
        assert !AmbiguousAt(lcs, i);
      }
    }
  }

  lemma AffectedMembers(lcs: seq<StreamLifecycle>)
    ensures Has(lcs, StrongAndWithdrawn) <==> exists i :: WithdrawnAt(lcs, i)
    ensures Has(lcs, StrongAndDeparted) <==> exists i :: DepartedAt(lcs, i)
    ensures Always(lcs, StrongAndAffected) <==> forall i :: !UnaffectedAt(lcs, i)
  {
    if i :| WithdrawnAt(lcs, i) { assert StrongAndWithdrawn(lcs[i]); }
    if i :| 0 <= i < |lcs| && StrongAndWithdrawn(lcs[i]) { assert WithdrawnAt(lcs, i); }
    if i :| DepartedAt(lcs, i) { assert StrongAndDeparted(lcs[i]); }
    if i :| 0 <= i < |lcs| && StrongAndDeparted(lcs[i]) { assert DepartedAt(lcs, i); }
    if i :| UnaffectedAt(lcs, i) { assert !StrongAndAffected(lcs[i]); }
    if i :| 0 <= i < |lcs| && !StrongAndAffected(lcs[i]) { assert UnaffectedAt(lcs, i); }
  }

  /** What lifecycles of a participant lead to if some unambiguous stream is down. */
  lemma {:induction false} DownVerdicts(lcs: seq<StreamLifecycle>)
    requires FromSimulation(lcs)
    ensures ParticipantVerdict(lcs) == ExpectedParticipantUnavailability <==> AllDown(lcs)
    ensures ParticipantVerdict(lcs) == PartialImpact <==> PartlyDown(lcs)
    ensures ParticipantVerdict(lcs) == ExpectedAlternateRouting <==> Rerouted(lcs)
  {
    ParticipantVerdictMeaning(lcs);
    AffectedMembers(lcs);
  }

  /** And if none is. */
  lemma {:induction false} CalmVerdict(lcs: seq<StreamLifecycle>)
    requires FromSimulation(lcs) && NoneDown(lcs)
    ensures ParticipantVerdict(lcs) ==
      if exists i :: AmbiguousAt(lcs, i) then InsufficientVisibility
      else if lcs != [] && forall i :: !ChangedAt(lcs, i) then PolicyChangeObserved
      else UnexpectedContinuedInternet2Path
  {
    DownVerdicts(lcs);
    AffectedMembers(lcs);
    StrongMembers(lcs);
    OverStrong(lcs);
    StrongOnes(lcs);
    StrongVerdictMeaning(Filter(lcs, Strong));
    CalmCategories(lcs);
  }

  lemma SomeoneDown(lcs: seq<StreamLifecycle>)
    ensures NoneDown(lcs) <==> !AllDown(lcs) && !PartlyDown(lcs) && !Rerouted(lcs)
  {
    if i :| WithdrawnAt(lcs, i) { assert AllDown(lcs) || PartlyDown(lcs); }
  }

  /** What lifecycles of a participant lead to. */
  lemma {:induction false} LifecycleVerdicts(lcs: seq<StreamLifecycle>)
    requires FromSimulation(lcs)
    ensures ParticipantVerdict(lcs) == ExpectedParticipantUnavailability <==> AllDown(lcs)
    ensures ParticipantVerdict(lcs) == PartialImpact <==> PartlyDown(lcs)
    ensures ParticipantVerdict(lcs) == ExpectedAlternateRouting <==> Rerouted(lcs)
    ensures ParticipantVerdict(lcs) == InsufficientVisibility <==> Unclear(lcs)
    ensures ParticipantVerdict(lcs) == PolicyChangeObserved <==> OnlyPolicyChanged(lcs)
    ensures ParticipantVerdict(lcs) == UnexpectedContinuedInternet2Path <==> StillThere(lcs)
  {
    DownVerdicts(lcs);
    SomeoneDown(lcs);
    if NoneDown(lcs) {
      CalmVerdict(lcs);
    }
  }

  lemma CalmCategories(lcs: seq<StreamLifecycle>)
    requires FromSimulation(lcs) && NoneDown(lcs)
    ensures (forall i :: !ChangedAt(lcs, i)) <==> forall i :: 0 <= i < |lcs| && !AmbiguousAt(lcs, i) ==>
      lcs[i].category == Unchanged || lcs[i].category == PrependOnly
  {
    forall i | 0 <= i < |lcs| && !AmbiguousAt(lcs, i)
      ensures !ChangedAt(lcs, i) <==> lcs[i].category == Unchanged || lcs[i].category == PrependOnly
    {
      assert !WithdrawnAt(lcs, i) && !DepartedAt(lcs, i);
    }
  }

  // ---- The verdicts ----

  /** With lifecycles: who lost what. */
  ghost predicate Judges(lifecycles: Option<seq<StreamLifecycle>>, finding: seq<StreamLifecycle> -> bool) {
    lifecycles.Some? && finding(lifecycles.value)
  }

  ghost predicate Sound(lifecycles: Option<seq<StreamLifecycle>>) {
    lifecycles.Some? ==> FromSimulation(lifecycles.value)
  }

  /** A redundant attachment: failure means a withdrawal, success a mere change of path. */
  lemma RedundantVerdicts(
      kind: ExpectationKind, ts: seq<RouteTransition>, unknownContinuity: bool,
      lifecycles: Option<seq<StreamLifecycle>>)
    ensures DeriveVerdict(kind, ts, unknownContinuity, lifecycles) == RedundancyFailureObserved <==>
      Continuous(ts, unknownContinuity) && kind == Redundant && SomeWithdrawal(ts)
    ensures DeriveVerdict(kind, ts, unknownContinuity, lifecycles) == ExpectedRedundantImpact <==>
      Continuous(ts, unknownContinuity) && kind == Redundant && SomePathReplacement(ts) && !SomeWithdrawal(ts)
    ensures DeriveVerdict(kind, ts, unknownContinuity, lifecycles) == NoObservableBgpImpact <==>
      Continuous(ts, unknownContinuity)
      && ((kind == Redundant && !SomePathReplacement(ts) && !SomeWithdrawal(ts))
        || (kind == UnknownExpectation && ts == []))
  {
    SeenMeans(ts);
  }

  /** A single attachment loses reachability by a withdrawal only; without an expectation nothing follows. */
  lemma SingleAttachmentVerdicts(
      kind: ExpectationKind, ts: seq<RouteTransition>, unknownContinuity: bool,
      lifecycles: Option<seq<StreamLifecycle>>)
    ensures DeriveVerdict(kind, ts, unknownContinuity, lifecycles) == ExpectedLossOfReachability <==>
      Continuous(ts, unknownContinuity) && kind == NonRedundant && SomeWithdrawal(ts)
    ensures DeriveVerdict(kind, ts, unknownContinuity, lifecycles) == LessImpactThanExpected <==>
      Continuous(ts, unknownContinuity) && kind == NonRedundant && !SomeWithdrawal(ts)
    ensures DeriveVerdict(kind, ts, unknownContinuity, lifecycles) == Verdict.Indeterminate <==>
      Continuous(ts, unknownContinuity) && kind == UnknownExpectation && ts != []
  {
    SeenMeans(ts);
  }

  /** A relationship goes down, wholly or in part. */
  lemma {:induction false} OutageVerdicts(
      kind: ExpectationKind, ts: seq<RouteTransition>, unknownContinuity: bool,
      lifecycles: Option<seq<StreamLifecycle>>)
    requires Sound(lifecycles)
    ensures DeriveVerdict(kind, ts, unknownContinuity, lifecycles) == ExpectedParticipantUnavailability <==>
      Continuous(ts, unknownContinuity)
      && ((kind == PeerRelationshipUnavailable && SomeWithdrawal(ts))
        || (kind == ParticipantRelationshipUnavailable && lifecycles.None? && SomeWithdrawal(ts) && !SomeDeparture(ts))
        || (kind == ParticipantRelationshipUnavailable && ts != [] && Judges(lifecycles, AllDown)))
    ensures DeriveVerdict(kind, ts, unknownContinuity, lifecycles) == PartialImpact <==>
      Continuous(ts, unknownContinuity) && kind == ParticipantRelationshipUnavailable
      && ((lifecycles.None? && SomeWithdrawal(ts) && SomeDeparture(ts)) || (ts != [] && Judges(lifecycles, PartlyDown)))
  {
    SeenMeans(ts);
    if lifecycles.Some? { LifecycleVerdicts(lifecycles.value); }
  }

  /** Traffic takes another way. */
  lemma {:induction false} ReroutingVerdict(
      kind: ExpectationKind, ts: seq<RouteTransition>, unknownContinuity: bool,
      lifecycles: Option<seq<StreamLifecycle>>)
    requires Sound(lifecycles)
    ensures DeriveVerdict(kind, ts, unknownContinuity, lifecycles) == ExpectedAlternateRouting <==>
      Continuous(ts, unknownContinuity)
      && ((kind == PeerRelationshipUnavailable && SomePathReplacement(ts) && !SomeWithdrawal(ts))
        || (kind == ParticipantRelationshipUnavailable && lifecycles.None? && SomeDeparture(ts) && !SomeWithdrawal(ts))
        || (kind == ParticipantRelationshipUnavailable && ts != [] && Judges(lifecycles, Rerouted)))
  {
    SeenMeans(ts);
    if lifecycles.Some? { LifecycleVerdicts(lifecycles.value); }
  }

  /** Nothing is lost. */
  lemma {:induction false} ContinuedVerdicts(
      kind: ExpectationKind, ts: seq<RouteTransition>, unknownContinuity: bool,
      lifecycles: Option<seq<StreamLifecycle>>)
    requires Sound(lifecycles)
    ensures DeriveVerdict(kind, ts, unknownContinuity, lifecycles) == PolicyChangeObserved <==>
      Continuous(ts, unknownContinuity) && kind == ParticipantRelationshipUnavailable && ts != []
      && Judges(lifecycles, OnlyPolicyChanged)
    ensures DeriveVerdict(kind, ts, unknownContinuity, lifecycles) == UnexpectedContinuedInternet2Path <==>
      Continuous(ts, unknownContinuity)
      && ((kind == PeerRelationshipUnavailable && !SomeWithdrawal(ts) && !SomePathReplacement(ts))
        || (kind == ParticipantRelationshipUnavailable && ts == [])
        || (kind == ParticipantRelationshipUnavailable && lifecycles.None? && !SomeWithdrawal(ts) && !SomeDeparture(ts))
        || (kind == ParticipantRelationshipUnavailable && Judges(lifecycles, StillThere)))
  {
    SeenMeans(ts);
    if lifecycles.Some? { LifecycleVerdicts(lifecycles.value); }
  }

  /** Too little is seen. */
  lemma {:induction false} InsufficientVerdict(
      kind: ExpectationKind, ts: seq<RouteTransition>, unknownContinuity: bool,
      lifecycles: Option<seq<StreamLifecycle>>)
    requires Sound(lifecycles)
    ensures DeriveVerdict(kind, ts, unknownContinuity, lifecycles) == InsufficientVisibility <==>
      !Continuous(ts, unknownContinuity)
      || (kind == ParticipantRelationshipUnavailable && ts != [] && Judges(lifecycles, Unclear))
  {
    SeenMeans(ts);
    if lifecycles.Some? { LifecycleVerdicts(lifecycles.value); }
  }

  /** Records of the simulation meet the condition. */
  lemma SimulatedIsSound(
      lcs: seq<StreamLifecycle>, ts: seq<RouteTransition>, cohort: FrozenCohort, cooldownEnd: int,
      tp: TransitPredicate)
    requires AreLifecycles(lcs, ts, cohort, cooldownEnd, tp)
    ensures Sound(Some(lcs))
  {
    RecordsConsistent(lcs, ts, cohort, cooldownEnd, tp);
  }
}
