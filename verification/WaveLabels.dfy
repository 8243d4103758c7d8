/** What a wave says about its transitions, each number and label in terms of their effects, routes and kinds. */
module WaveLabels {
  import opened Prelude
  import opened Seqs
  import opened Sorting
  import opened Orders
  import opened Routes
  import opened Lifecycle
  import opened LifecycleRuns
  import opened Runs
  import opened Text
  import opened Waves

  // ---- Counting ----

  /** How many transitions of the group have the property. */
  function HowMany(group: seq<RouteTransition>, p: RouteTransition -> bool): nat {
    if group == [] then 0 else HowMany(group[..|group| - 1], p) + if p(group[|group| - 1]) then 1 else 0
  }

  lemma {:induction false} HowManyPass(
      group: seq<RouteTransition>, p: RouteTransition -> bool, q: RouteTransition -> bool)
    requires forall t :: p(t) <==> q(t)
    ensures HowMany(group, p) == |Filter(group, q)|
  {
    if group != [] {
      var init, t := group[..|group| - 1], group[|group| - 1];
      HowManyPass(init, p, q);
      assert group == init + [t];
      FilterSnoc(init, t, q);
    }
  }

  // ---- What is counted ----

  predicate ReducesPrepending(t: RouteTransition) { t.effects.prepend == Reduced }

  predicate IncreasesPrepending(t: RouteTransition) { t.effects.prepend == Increased }

  /** A route was there, and it matched. */
  predicate CameFromTransit(t: RouteTransition, tp: TransitPredicate) {
    t.from.Some? && tp.Evaluate(t.from.value.attributes.asPath)
  }

  function KeepsTransit(tp: TransitPredicate): RouteTransition -> bool {
    (t: RouteTransition) => CameFromTransit(t, tp) && t.to.Some? && tp.Evaluate(t.to.value.attributes.asPath)
  }

  function LosesTransit(tp: TransitPredicate): RouteTransition -> bool {
    (t: RouteTransition) => CameFromTransit(t, tp) && t.to.Some? && !tp.Evaluate(t.to.value.attributes.asPath)
  }

  function RegainsTransit(tp: TransitPredicate): RouteTransition -> bool {
    (t: RouteTransition) => !CameFromTransit(t, tp) && t.to.Some? && tp.Evaluate(t.to.value.attributes.asPath)
  }

  function IsOf(kind: TransitionKind): RouteTransition -> bool { (t: RouteTransition) => t.kind == kind }

  /** The number a label stands on. */
  function Standing(effect: WaveLabel, group: seq<RouteTransition>, tp: TransitPredicate): nat {
    match effect
    case PrependReduction => HowMany(group, ReducesPrepending)
    case PrependIncrease => HowMany(group, IncreasesPrepending)
    case StreamWithdrawal => HowMany(group, IsOf(Withdrawal))
    case TransitDeparture => HowMany(group, LosesTransit(tp))
    case StreamRestored => HowMany(group, IsOf(Restoration))
    case TransitReturn => HowMany(group, RegainsTransit(tp))
    case BaselinePolicyRestoration => HowMany(group, IsOf(ReturnToBaseline))
    case MixedRouteChange => 0
  }

  lemma {:induction false} StandsOnPrepending(group: seq<RouteTransition>, tp: TransitPredicate)
    ensures Support(group, PrependReduction, tp) == HowMany(group, ReducesPrepending)
    ensures Support(group, PrependIncrease, tp) == HowMany(group, IncreasesPrepending)
  {
    HowManyPass(group, ReducesPrepending, Supporting(PrependReduction, tp));
    HowManyPass(group, IncreasesPrepending, Supporting(PrependIncrease, tp));
  }

  lemma {:induction false} StandsOnTransit(group: seq<RouteTransition>, tp: TransitPredicate)
    ensures Support(group, TransitDeparture, tp) == HowMany(group, LosesTransit(tp))
    ensures Support(group, TransitReturn, tp) == HowMany(group, RegainsTransit(tp))
    ensures |Filter(group, Retaining(tp))| == HowMany(group, KeepsTransit(tp))
  {
    HowManyPass(group, LosesTransit(tp), Supporting(TransitDeparture, tp));
    HowManyPass(group, RegainsTransit(tp), Supporting(TransitReturn, tp));
    HowManyPass(group, KeepsTransit(tp), Retaining(tp));
  }

  lemma {:induction false} StandsOnKinds(group: seq<RouteTransition>, tp: TransitPredicate)
    ensures Support(group, StreamWithdrawal, tp) == HowMany(group, IsOf(Withdrawal))
    ensures Support(group, StreamRestored, tp) == HowMany(group, IsOf(Restoration))
    ensures Support(group, BaselinePolicyRestoration, tp) == HowMany(group, IsOf(ReturnToBaseline))
  {
    HowManyPass(group, IsOf(Withdrawal), Supporting(StreamWithdrawal, tp));
    HowManyPass(group, IsOf(Restoration), Supporting(StreamRestored, tp));
    HowManyPass(group, IsOf(ReturnToBaseline), Supporting(BaselinePolicyRestoration, tp));
  }

  lemma SupportMeaning(effect: WaveLabel, group: seq<RouteTransition>, tp: TransitPredicate)
    ensures Support(group, effect, tp) == Standing(effect, group, tp)
  {
    match effect {
      case PrependReduction => StandsOnPrepending(group, tp);
      case PrependIncrease => StandsOnPrepending(group, tp);
      case TransitDeparture => StandsOnTransit(group, tp);
      case TransitReturn => StandsOnTransit(group, tp);
      case MixedRouteChange => NothingSupportsMixed(group, tp);
      case _ => StandsOnKinds(group, tp);
    }
  }

  // ---- The label ----

  /** More transitions speak for this label than for any other. */
  ghost predicate Wins(effect: WaveLabel, group: seq<RouteTransition>, tp: TransitPredicate) {
    forall other :: other != effect ==> Standing(other, group, tp) < Standing(effect, group, tp)
  }

  /** A wave bears the label that wins; mixed if none does. */
  lemma LabelExactly(w: SemanticWave, group: seq<RouteTransition>, tp: TransitPredicate)
    requires group != [] && IsWave(w, group, tp)
    ensures forall effect :: effect != MixedRouteChange ==> (w.dominant == effect <==> Wins(effect, group, tp))
    ensures w.dominant == MixedRouteChange <==> forall effect :: !Wins(effect, group, tp)
  {
    LabelWins(w.dominant, group, tp);
  }

  lemma LabelWins(given: WaveLabel, group: seq<RouteTransition>, tp: TransitPredicate)
    requires IsLabel(given, group, tp)
    ensures forall effect :: effect != MixedRouteChange ==> (given == effect <==> Wins(effect, group, tp))
    ensures given == MixedRouteChange <==> forall effect :: !Wins(effect, group, tp)
  {
    forall effect ensures Wins(effect, group, tp) <==> Dominates(effect, group, tp) {
      WinsMeans(effect, group, tp);
    }
    forall effect, other | Wins(effect, group, tp) && Wins(other, group, tp) ensures effect == other {
      OneWinner(effect, other, group, tp);
    }
    MixedNeverWins(group, tp);
  }

  lemma OneWinner(effect: WaveLabel, other: WaveLabel, group: seq<RouteTransition>, tp: TransitPredicate)
    requires Wins(effect, group, tp) && Wins(other, group, tp)
    ensures effect == other
  {
    assert effect != other ==> Standing(other, group, tp) < Standing(effect, group, tp);
  }

  lemma MixedNeverWins(group: seq<RouteTransition>, tp: TransitPredicate)
    ensures !Wins(MixedRouteChange, group, tp)
  {
    assert Standing(PrependIncrease, group, tp) >= Standing(MixedRouteChange, group, tp);
  }

  lemma WinsMeans(effect: WaveLabel, group: seq<RouteTransition>, tp: TransitPredicate)
    ensures Wins(effect, group, tp) <==> Dominates(effect, group, tp)
  {
    forall other { SupportMeaning(other, group, tp); }
    if Wins(effect, group, tp) {
      assert effect == MixedRouteChange ==>
        Standing(PrependIncrease, group, tp) < Standing(MixedRouteChange, group, tp);
      assert effect != MixedRouteChange ==>
        Standing(MixedRouteChange, group, tp) < Standing(effect, group, tp);
    }
  }

  /** The numbers of the labels are those the wave reports: its facets and its transit counts. */
  lemma {:induction false} LabelAgreesWithCounts(w: SemanticWave, group: seq<RouteTransition>, tp: TransitPredicate)
    requires WaveFor(tp)(w, group)
    ensures Standing(PrependReduction, group, tp) == w.facets.prependReduced
    ensures Standing(PrependIncrease, group, tp) == w.facets.prependIncreased
    ensures Standing(TransitDeparture, group, tp) == w.eventRelative.departed
    ensures Standing(TransitReturn, group, tp) == w.eventRelative.returned
    ensures HowMany(group, KeepsTransit(tp)) == w.eventRelative.retained
  {
    CountsOfWave(w, group, tp);
    RelativeMeaning(w.eventRelative, group, tp);
    PrependFacets(w.facets, group);
  }

  lemma CountsOfWave(w: SemanticWave, group: seq<RouteTransition>, tp: TransitPredicate)
    requires WaveFor(tp)(w, group)
    ensures CountsFacets(w.facets, group) && w.eventRelative == RelativeOf(group, tp)
  {
  }

  lemma {:induction false} RelativeMeaning(relative: EventRelative, group: seq<RouteTransition>, tp: TransitPredicate)
    requires relative == RelativeOf(group, tp)
    ensures relative.departed == HowMany(group, LosesTransit(tp))
    ensures relative.returned == HowMany(group, RegainsTransit(tp))
    ensures relative.retained == HowMany(group, KeepsTransit(tp))
  {
    StandsOnTransit(group, tp);
  }

  // ---- All waves of a run ----

  /** The waves hold exactly the transitions of the event phase, and are numbered from 1. */
  lemma {:induction false} WavesMeaning(
      waves: seq<SemanticWave>, groups: seq<seq<RouteTransition>>, ts: seq<RouteTransition>, maxGap: real,
      tp: TransitPredicate)
    requires Grouped(waves, groups, ts, maxGap, tp)
    ensures |waves| == |groups|
    ensures forall t :: t in Flatten(groups) <==> t in ts && t.phase == Event
    ensures forall i :: 0 <= i < |waves| ==> groups[i] != [] && IsWave(waves[i], groups[i], tp)
    ensures forall i :: 0 <= i < |waves| ==> waves[i].id == "wave-" + Decimal(i + 1) && HasDetails(waves[i], groups[i])
  {
    EventsMeaning(ts);
    forall i | 0 <= i < |waves|
      ensures groups[i] != [] && IsWave(waves[i], groups[i], tp) && HasDetails(waves[i], groups[i])
      ensures waves[i].id == "wave-" + Decimal(i + 1)
    {
      assert WaveFor(tp)(waves[i], groups[i]) && waves[i].id == WaveId(i);
    }
  }

  lemma EventsMeaning(ts: seq<RouteTransition>)
    ensures forall t :: t in EventsOf(ts) <==> t in ts && t.phase == Event
  {
    SortPermutes(Filter(ts, InEvent), Chronological);
    SameItems(EventsOf(ts), Filter(ts, InEvent));
    forall t ensures t in EventsOf(ts) <==> t in ts && t.phase == Event {
      FilterMember(ts, InEvent, t);
    }
  }

  // ---- Facets ----

  predicate ChangesCommunities(t: RouteTransition) { t.effects.communitiesChanged }

  predicate AddsGracefulShutdown(t: RouteTransition) { t.effects.gracefulShutdownAdded }

  predicate RemovesGracefulShutdown(t: RouteTransition) { t.effects.gracefulShutdownRemoved }

  predicate ChangesPath(t: RouteTransition) { t.effects.materialPathChanged }

  predicate ChangesOrigin(t: RouteTransition) { t.effects.originChanged }

  predicate ChangesNextHop(t: RouteTransition) { t.effects.nextHopChanged }

  predicate ChangesMed(t: RouteTransition) { t.effects.medChanged }

  predicate ChangesLocalPref(t: RouteTransition) { t.effects.localPrefChanged }

  lemma {:induction false} CountedFacet(
      counts: Facets, group: seq<RouteTransition>, f: Facet, p: RouteTransition -> bool)
    requires CountsFacets(counts, group) && forall t :: p(t) <==> Showing(f)(t)
    ensures counts.Of(f) == HowMany(group, p)
  {
    HowManyPass(group, p, Showing(f));
  }

  lemma {:induction false} PrependFacets(counts: Facets, group: seq<RouteTransition>)
    requires CountsFacets(counts, group)
    ensures counts.prependReduced == HowMany(group, ReducesPrepending)
    ensures counts.prependIncreased == HowMany(group, IncreasesPrepending)
  {
    CountedFacet(counts, group, ReducedPrepending, ReducesPrepending);
    CountedFacet(counts, group, IncreasedPrepending, IncreasesPrepending);
  }

  lemma {:induction false} CommunityFacets(counts: Facets, group: seq<RouteTransition>)
    requires CountsFacets(counts, group)
    ensures counts.communitiesChanged == HowMany(group, ChangesCommunities)
    ensures counts.gracefulShutdownAdded == HowMany(group, AddsGracefulShutdown)
    ensures counts.gracefulShutdownRemoved == HowMany(group, RemovesGracefulShutdown)
  {
    CountedFacet(counts, group, CommunitiesChanged, ChangesCommunities);
    CountedFacet(counts, group, GracefulShutdownAdded, AddsGracefulShutdown);
    CountedFacet(counts, group, GracefulShutdownRemoved, RemovesGracefulShutdown);
  }

  lemma {:induction false} PathFacets(counts: Facets, group: seq<RouteTransition>)
    requires CountsFacets(counts, group)
    ensures counts.materialPathChanged == HowMany(group, ChangesPath)
    ensures counts.originChanged == HowMany(group, ChangesOrigin)
  {
    CountedFacet(counts, group, MaterialPathChanged, ChangesPath);
    CountedFacet(counts, group, OriginChanged, ChangesOrigin);
  }

  lemma {:induction false} AttributeFacets(counts: Facets, group: seq<RouteTransition>)
    requires CountsFacets(counts, group)
    ensures counts.nextHopChanged == HowMany(group, ChangesNextHop)
    ensures counts.medChanged == HowMany(group, ChangesMed)
    ensures counts.localPrefChanged == HowMany(group, ChangesLocalPref)
  {
    CountedFacet(counts, group, NextHopChanged, ChangesNextHop);
    CountedFacet(counts, group, MedChanged, ChangesMed);
    CountedFacet(counts, group, LocalPrefChanged, ChangesLocalPref);
  }

  /** Every facet counts the transitions with that effect. */
  lemma {:induction false} FacetsMeaning(w: SemanticWave, group: seq<RouteTransition>)
    requires HasDetails(w, group)
    ensures w.facets.prependReduced == HowMany(group, ReducesPrepending)
    ensures w.facets.prependIncreased == HowMany(group, IncreasesPrepending)
    ensures w.facets.communitiesChanged == HowMany(group, ChangesCommunities)
    ensures w.facets.gracefulShutdownAdded == HowMany(group, AddsGracefulShutdown)
    ensures w.facets.gracefulShutdownRemoved == HowMany(group, RemovesGracefulShutdown)
    ensures w.facets.materialPathChanged == HowMany(group, ChangesPath)
    ensures w.facets.originChanged == HowMany(group, ChangesOrigin)
    ensures w.facets.nextHopChanged == HowMany(group, ChangesNextHop)
    ensures w.facets.medChanged == HowMany(group, ChangesMed)
    ensures w.facets.localPrefChanged == HowMany(group, ChangesLocalPref)
  {
    PrependFacets(w.facets, group);
    CommunityFacets(w.facets, group);
    PathFacets(w.facets, group);
    AttributeFacets(w.facets, group);
  }

  // ---- Bounds, lists and the peak ----

  /** From the first to the last transition, in whole seconds, with the paths of the first. */
  lemma BoundsMeaning(w: SemanticWave, group: seq<RouteTransition>, tp: TransitPredicate)
    requires group != [] && IsWave(w, group, tp)
    ensures w.start == group[0].Time() && w.end == group[|group| - 1].Time()
    ensures w.end >= w.start ==>
      w.durationSecs * 1_000_000_000 <= w.end - w.start < (w.durationSecs + 1) * 1_000_000_000
    ensures w.end <= w.start ==> w.durationSecs == 0
    ensures w.representativeBefore == if group[0].from.Some? then group[0].from.value.attributes.asPath else []
    ensures w.representativeAfter == if group[0].to.Some? then group[0].to.value.attributes.asPath else []
  {
  }

  function TextOf(t: RouteTransition): string {
    t.key.stream.collector + ":" + t.key.stream.peerIp + ":" + t.key.stream.prefix
  }

  /** How many different stream texts and route keys there are. */
  lemma CountsMeaning(w: SemanticWave, group: seq<RouteTransition>, tp: TransitPredicate)
    requires group != [] && IsWave(w, group, tp)
    ensures w.streamCount == |set t | t in group :: TextOf(t)|
    ensures w.routeInstanceCount == |set t | t in group :: (t.key.stream, t.key.pathId)|
  {
    assert StreamTexts(group) == set t | t in group :: TextOf(t);
    var keys, pairs := RouteKeys(group), set t | t in group :: (t.key.stream, t.key.pathId);
    SameSize(keys, pairs);
  }

  lemma {:induction false} SameSize(keys: set<RouteKey>, pairs: set<(StreamKey, Option<U32>)>)
    requires forall k :: k in keys <==> (k.stream, k.pathId) in pairs
    ensures |keys| == |pairs|
  {
    forall x | x in pairs ensures RouteKey(x.0, x.1) in keys { }
    if keys != {} {
      var k :| k in keys;
      SameSize(keys - {k}, pairs - {(k.stream, k.pathId)});
    }
  }

  /** Prefixes, peers and observations: those of the transitions, in order, each once. */
  lemma ListsMeaning(w: SemanticWave, group: seq<RouteTransition>)
    requires HasDetails(w, group)
    ensures forall x :: x in w.prefixes <==> exists t :: t in group && t.key.stream.prefix == x
    ensures forall x :: x in w.peers <==> exists t :: t in group && t.key.stream.peerIp == x
    ensures forall x :: x in w.evidenceRefs <==> exists t :: t in group && t.evidence.observationId == x
    ensures forall i, j :: 0 <= i < j < |w.prefixes| ==> Precedes(w.prefixes[i], w.prefixes[j])
    ensures forall i, j :: 0 <= i < j < |w.peers| ==> Precedes(w.peers[i], w.peers[j])
    ensures forall i, j :: 0 <= i < j < |w.evidenceRefs| ==> w.evidenceRefs[i] < w.evidenceRefs[j]
  {
    assert forall x :: x in PrefixesOf(group) <==> exists t :: t in group && t.key.stream.prefix == x;
    assert forall x :: x in PeersOf(group) <==> exists t :: t in group && t.key.stream.peerIp == x;
    forall x: int ensures x in Map(group, ObservationOf) <==> exists t :: t in group && t.evidence.observationId == x {
      ObservedMeans(group, x);
    }
    InOrder(w.prefixes, PrefixesOf(group));
    InOrder(w.peers, PeersOf(group));
    assert forall i, j :: 0 <= i < j < |w.evidenceRefs| ==> IntBefore(w.evidenceRefs[i], w.evidenceRefs[j]);
  }

  lemma ObservedMeans(group: seq<RouteTransition>, x: int)
    ensures x in Map(group, ObservationOf) <==> exists t :: t in group && t.evidence.observationId == x
  {
    var ids := Map(group, ObservationOf);
    if x in ids {
      var i :| 0 <= i < |ids| && ids[i] == x;
      assert ids[i] == ObservationOf(group[i]);
      assert group[i] in group && group[i].evidence.observationId == x;
    }
    if t :| t in group && t.evidence.observationId == x {
      var i :| 0 <= i < |group| && group[i] == t;
      assert ids[i] == ObservationOf(group[i]) == x;
    }
  }

  lemma InOrder(list: seq<string>, elements: set<string>)
    requires ListsStrings(list, elements)
    ensures forall i, j :: 0 <= i < j < |list| ==> Precedes(list[i], list[j])
  {
    forall i, j | 0 <= i < j < |list| ensures Precedes(list[i], list[j]) {
      assert StringBefore(list[i], list[j]);
      CompareStringMeaning(list[i], list[j]);
    }
  }

  /** In the minute (in nanoseconds) that starts here. */
  function InMinuteFrom(from: int): RouteTransition -> bool {
    (t: RouteTransition) => from <= t.Time() <= from + 60_000_000_000
  }

  lemma {:induction false} MinuteMeans(group: seq<RouteTransition>, from: int)
    ensures InWindow(TimesOf(group), from) == HowMany(group, InMinuteFrom(from))
  {
    TimesInWindow(group, from);
    HowManyPass(group, InMinuteFrom(from), InMinuteFrom(from));
  }

  lemma {:induction false} TimesInWindow(group: seq<RouteTransition>, from: int)
    ensures |Filter(TimesOf(group), Within(from))| == |Filter(group, InMinuteFrom(from))|
  {
    if group != [] {
      TimesInWindow(group[1..], from);
      assert TimesOf(group)[1..] == TimesOf(group[1..]);
    }
  }

  /** It starts where most transitions follow within a minute, at the earliest such time, and ends with their last. */
  ghost predicate IsDensest(start: int, end: int, group: seq<RouteTransition>) {
    && (exists t :: t in group && t.Time() == start)
    && (forall from :: HowMany(group, InMinuteFrom(from)) <= HowMany(group, InMinuteFrom(start)))
    && (forall t :: t in group && t.Time() < start ==>
      HowMany(group, InMinuteFrom(t.Time())) < HowMany(group, InMinuteFrom(start)))
    && (exists t :: t in group && InMinuteFrom(start)(t) && t.Time() == end)
    && (forall t :: t in group && InMinuteFrom(start)(t) ==> t.Time() <= end)
  }

  lemma PeakMeaning(w: SemanticWave, group: seq<RouteTransition>, tp: TransitPredicate)
    requires group != [] && IsWave(w, group, tp)
    ensures IsDensest(w.peakStart, w.peakEnd, group)
  {
    PeakIsDensest(w.peakStart, w.peakEnd, group);
  }

  lemma TimesAreInstants(group: seq<RouteTransition>, time: int)
    ensures time in TimesOf(group) <==> exists t :: t in group && t.Time() == time
  {
    var times := TimesOf(group);
    if time in times {
      var i :| 0 <= i < |times| && times[i] == time;
      assert group[i] in group && group[i].Time() == time;
    }
    if t :| t in group && t.Time() == time {
      var i :| 0 <= i < |group| && group[i] == t;
      assert times[i] == time;
    }
  }

  lemma {:induction false} NoMinuteIsFuller(start: int, end: int, group: seq<RouteTransition>, from: int)
    requires IsPeak(start, end, TimesOf(group))
    ensures HowMany(group, InMinuteFrom(from)) <= HowMany(group, InMinuteFrom(start))
    ensures from in TimesOf(group) && from < start ==>
      HowMany(group, InMinuteFrom(from)) < HowMany(group, InMinuteFrom(start))
  {
    MinuteMeans(group, from);
    MinuteMeans(group, start);
  }

  lemma PeakIsDensest(start: int, end: int, group: seq<RouteTransition>)
    requires IsPeak(start, end, TimesOf(group))
    ensures IsDensest(start, end, group)
  {
    forall from ensures HowMany(group, InMinuteFrom(from)) <= HowMany(group, InMinuteFrom(start)) {
      NoMinuteIsFuller(start, end, group, from);
    }
    forall t | t in group && t.Time() < start
      ensures HowMany(group, InMinuteFrom(t.Time())) < HowMany(group, InMinuteFrom(start))
    {
      TimesAreInstants(group, t.Time());
      NoMinuteIsFuller(start, end, group, t.Time());
    }
    TimesAreInstants(group, start);
    PeakEnds(start, end, group);
  }

  lemma PeakEnds(start: int, end: int, group: seq<RouteTransition>)
    requires IsPeak(start, end, TimesOf(group))
    ensures exists t :: t in group && InMinuteFrom(start)(t) && t.Time() == end
    ensures forall t :: t in group && InMinuteFrom(start)(t) ==> t.Time() <= end
  {
    TimesAreInstants(group, end);
    var t :| t in group && t.Time() == end;
    assert InMinuteFrom(start)(t);
    forall t | t in group && InMinuteFrom(start)(t) ensures t.Time() <= end {
      TimesAreInstants(group, t.Time());
    }
  }
}
