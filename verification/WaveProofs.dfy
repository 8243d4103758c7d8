/** What the waves of an event are: a unique partition of its transitions, whatever order they came in. */
module WaveProofs {
  import opened Prelude
  import opened Seqs
  import opened Sorting
  import opened Routes
  import opened Lifecycle
  import opened LifecycleRuns
  import opened Runs
  import opened Waves

  // ---- Order inside and between waves ----

  predicate NotLater(a: RouteTransition, b: RouteTransition) { a.Time() <= b.Time() }

  lemma {:induction false} EventsInOrder(ts: seq<RouteTransition>)
    ensures Sorted(EventsOf(ts), NotLater)
    ensures multiset(EventsOf(ts)) == multiset(Filter(ts, InEvent))
  {
    ChronologicalIsTotal();
    SortSorts(Filter(ts, InEvent), Chronological);
    SortPermutes(Filter(ts, InEvent), Chronological);
    var events := EventsOf(ts);
    forall i, j | 0 <= i < j < |events| ensures NotLater(events[i], events[j]) {
      assert Chronological(events[i], events[j]);
    }
  }

  lemma {:induction false} GroupsInOrder(groups: seq<seq<RouteTransition>>)
    requires Sorted(Flatten(groups), NotLater)
    ensures forall i :: 0 <= i < |groups| ==> Sorted(groups[i], NotLater)
  {
    if groups != [] {
      var init, last := groups[..|groups| - 1], groups[|groups| - 1];
      var flat := Flatten(groups);
      assert forall i :: 0 <= i < |last| ==> last[i] == flat[|Flatten(init)| + i];
      assert forall i :: 0 <= i < |Flatten(init)| ==> Flatten(init)[i] == flat[i];
      GroupsInOrder(init);
      forall i | 0 <= i < |groups| ensures Sorted(groups[i], NotLater) {
        if i < |init| { assert groups[i] == init[i]; }
      }
    }
  }

  lemma WaveEnds(w: SemanticWave, group: seq<RouteTransition>, tp: TransitPredicate)
    requires WaveFor(tp)(w, group)
    ensures group != [] && w.start == group[0].Time() && w.end == Last(group).Time()
    ensures IsPeak(w.peakStart, w.peakEnd, TimesOf(group))
    ensures w.durationSecs == DurationOf(w.start, w.end)
    ensures w.representativeBefore == PathOf(group[0].from) && w.representativeAfter == PathOf(group[0].to)
  {
  }

  /** Inside a wave neighbours are near; from one wave to the next the gap is too wide. */
  ghost predicate Separated(waves: seq<SemanticWave>, maxGap: real) {
    forall i, j :: 0 <= i < j < |waves| && j == i + 1 ==> NumSeconds(waves[j].start - waves[i].end) as real > maxGap
  }

  lemma SplitSeparates(
      waves: seq<SemanticWave>, groups: seq<seq<RouteTransition>>, events: seq<RouteTransition>, maxGap: real,
      good: (SemanticWave, seq<RouteTransition>) -> bool)
    requires IsSplit(groups, events, NearTransitions(maxGap)) && Built(waves, groups, good)
    requires forall w: SemanticWave, group: seq<RouteTransition> :: good(w, group) ==>
      group != [] && w.start == group[0].Time() && w.end == Last(group).Time()
    ensures Separated(waves, maxGap)
  {
    forall i, j | 0 <= i < j < |waves| && j == i + 1
      ensures NumSeconds(waves[j].start - waves[i].end) as real > maxGap {
      assert good(waves[i], groups[i]) && good(waves[j], groups[j]);
      assert !NearTransitions(maxGap)(Last(groups[i]), groups[j][0]);
    }
  }

  /** Every event transition is in exactly one wave, and the waves are as far apart as they must be. */
  lemma {:induction false} WavesPartitionEvents(
      ts: seq<RouteTransition>, maxGap: real, tp: TransitPredicate, waves: seq<SemanticWave>,
      groups: seq<seq<RouteTransition>>)
    requires Grouped(waves, groups, ts, maxGap, tp)
    ensures multiset(Flatten(groups)) == multiset(Filter(ts, InEvent))
    ensures forall i :: 0 <= i < |groups| ==> Sorted(groups[i], NotLater) && Chained(groups[i], NearTransitions(maxGap))
    ensures Separated(waves, maxGap)
  {
    EventsInOrder(ts);
    GroupsInOrder(groups);
    forall w: SemanticWave, group: seq<RouteTransition> | WaveFor(tp)(w, group)
      ensures group != [] && w.start == group[0].Time() && w.end == Last(group).Time() {
      WaveEnds(w, group, tp);
    }
    SplitSeparates(waves, groups, EventsOf(ts), maxGap, WaveFor(tp));
  }

  lemma TimesInside(group: seq<RouteTransition>, time: int)
    requires Sorted(group, NotLater) && time in TimesOf(group)
    ensures group[0].Time() <= time <= Last(group).Time()
  {
    var i :| 0 <= i < |group| && TimesOf(group)[i] == time;
    assert i > 0 ==> NotLater(group[0], group[i]);
    assert i < |group| - 1 ==> NotLater(group[i], Last(group));
  }

  /** The peak lies inside its wave. */
  lemma PeakInsideWave(w: SemanticWave, group: seq<RouteTransition>, tp: TransitPredicate)
    requires WaveFor(tp)(w, group) && Sorted(group, NotLater)
    ensures w.start <= w.peakStart <= w.peakEnd <= w.end
    ensures w.peakEnd - w.peakStart <= PEAK_WINDOW
  {
    WaveEnds(w, group, tp);
    TimesInside(group, w.peakStart);
    TimesInside(group, w.peakEnd);
  }

  /** Only whole seconds count: a gap joins as long as it stays below the next full second. */
  lemma NearMeaning(maxGap: real, a: int, b: int)
    requires a <= b && maxGap >= 0.0
    ensures Near(maxGap, a, b) <==> b - a < (maxGap.Floor + 1) * NANOS
  {
    var secs := (b - a) / NANOS;
    assert secs as real <= maxGap <==> secs <= maxGap.Floor;
    assert secs * NANOS <= b - a < (secs + 1) * NANOS;
  }

  /** The documented comparison: the gap itself, not its whole seconds. */
  ghost predicate GapAsDocumented(maxGap: real, a: int, b: int) {
    Near(maxGap, a, b) <==> (b - a) as real <= maxGap * NANOS as real
  }

  /** A gap of one nanosecond less than the next whole second is near, although it is too wide. */
  lemma AlmostOneSecondMore(maxGap: real)
    requires maxGap >= 0.0 && maxGap * NANOS as real < ((maxGap.Floor + 1) * NANOS - 1) as real
    ensures !GapAsDocumented(maxGap, 0, (maxGap.Floor + 1) * NANOS - 1)
  {
    NearMeaning(maxGap, 0, (maxGap.Floor + 1) * NANOS - 1);
  }

  /**
   * The comparison is the documented one for all ordered times exactly when the limit is negative, or
   * no time lies between it and the next whole second.
   */
  lemma GapAsDocumentedExactly(maxGap: real)
    ensures (forall a, b :: a <= b ==> GapAsDocumented(maxGap, a, b))
      <==> maxGap < 0.0 || maxGap * NANOS as real >= ((maxGap.Floor + 1) * NANOS - 1) as real
  {
    if maxGap >= 0.0 && maxGap * NANOS as real < ((maxGap.Floor + 1) * NANOS - 1) as real {
      AlmostOneSecondMore(maxGap);
    } else {
      forall a, b | a <= b ensures GapAsDocumented(maxGap, a, b) {
        if maxGap < 0.0 {
          assert NumSeconds(b - a) >= 0 && maxGap * NANOS as real < 0.0;
        } else {
          NearMeaning(maxGap, a, b);
          WholeSecondsBound(maxGap);
        }
      }
    }
  }

  lemma WholeSecondsBound(maxGap: real)
    ensures maxGap * NANOS as real < ((maxGap.Floor + 1) * NANOS) as real
  {
    assert maxGap < (maxGap.Floor + 1) as real;
    assert ((maxGap.Floor + 1) * NANOS) as real == (maxGap.Floor + 1) as real * NANOS as real;
  }

  // ---- Input order does not move the boundaries ----

  lemma SameEventTimes(ts: seq<RouteTransition>, us: seq<RouteTransition>)
    requires multiset(ts) == multiset(us)
    ensures multiset(EventsOf(ts)) == multiset(EventsOf(us))
    ensures TimesOf(EventsOf(ts)) == TimesOf(EventsOf(us))
  {
    EventsInOrder(ts);
    EventsInOrder(us);
    FilterPermutes(ts, us, InEvent);
    var xs, ys := EventsOf(ts), EventsOf(us);
    MapPermutes(xs, ys, TimeOf);
    TimesInOrder(xs);
    TimesInOrder(ys);
    SortedUnique(TimesOf(xs), TimesOf(ys), IntAtMost);
  }

  lemma TimesInOrder(xs: seq<RouteTransition>)
    requires Sorted(xs, NotLater)
    ensures Sorted(TimesOf(xs), IntAtMost)
  {
    forall i, j | 0 <= i < j < |xs| ensures IntAtMost(TimesOf(xs)[i], TimesOf(xs)[j]) {
      assert NotLater(xs[i], xs[j]);
    }
  }

  /** Any order of the input gives waves with the same observation times, for every gap. */
  lemma BoundariesIgnoreOrder(
      ts: seq<RouteTransition>, us: seq<RouteTransition>, maxGap: real, groups: seq<seq<RouteTransition>>,
      others: seq<seq<RouteTransition>>)
    requires multiset(ts) == multiset(us)
    requires IsSplit(groups, EventsOf(ts), NearTransitions(maxGap))
      && IsSplit(others, EventsOf(us), NearTransitions(maxGap))
    ensures MapEach(groups, TimeOf) == MapEach(others, TimeOf)
  {
    SameEventTimes(ts, us);
    var near, nearTimes := NearTransitions(maxGap), NearTimes(maxGap);
    forall x, y ensures near(x, y) <==> nearTimes(TimeOf(x), TimeOf(y)) {
      assert near(x, y) <==> Near(maxGap, TimeOf(x), TimeOf(y));
      assert nearTimes(TimeOf(x), TimeOf(y)) <==> Near(maxGap, TimeOf(x), TimeOf(y));
    }
    SplitMapped(groups, EventsOf(ts), TimeOf, near, nearTimes);
    SplitMapped(others, EventsOf(us), TimeOf, near, nearTimes);
    SplitUnique(MapEach(groups, TimeOf), MapEach(others, TimeOf), TimesOf(EventsOf(ts)), nearTimes);
  }

  // ---- Nor the members of each wave ----

  function From(time: int): RouteTransition -> bool {
    (t: RouteTransition) => t.Time() >= time
  }

  lemma {:induction false} FilterKeepsSuffix<T>(xs: seq<T>, at: nat, p: T -> bool)
    requires at <= |xs|
    requires forall i :: 0 <= i < |xs| ==> (p(xs[i]) <==> i >= at)
    ensures Filter(xs, p) == xs[at..]
  {
    if xs != [] {
      forall i | 0 <= i < |xs| - 1 ensures p(xs[1..][i]) <==> i >= (if at == 0 then 0 else at - 1) {
        assert xs[1..][i] == xs[i + 1];
      }
      FilterKeepsSuffix(xs[1..], if at == 0 then 0 else at - 1, p);
      assert p(xs[0]) <==> at == 0;
    }
  }

  /** Time strictly increases where two waves part. */
  lemma {:induction false} SuffixByTime(xs: seq<RouteTransition>, at: nat, maxGap: real)
    requires 0 < at < |xs| && maxGap >= 0.0 && Sorted(xs, NotLater)
    requires !Near(maxGap, xs[at - 1].Time(), xs[at].Time())
    ensures Filter(xs, From(xs[at].Time())) == xs[at..]
  {
    assert NotLater(xs[at - 1], xs[at]);
    assert xs[at - 1].Time() < xs[at].Time();
    forall i | 0 <= i < |xs| ensures From(xs[at].Time())(xs[i]) <==> i >= at {
      if i < at - 1 { assert NotLater(xs[i], xs[at - 1]); }
      if i > at { assert NotLater(xs[at], xs[i]); }
    }
    FilterKeepsSuffix(xs, at, From(xs[at].Time()));
  }

  lemma SameSuffix(xs: seq<RouteTransition>, ys: seq<RouteTransition>, at: nat, maxGap: real)
    requires maxGap >= 0.0 && Sorted(xs, NotLater) && Sorted(ys, NotLater)
    requires multiset(xs) == multiset(ys) && TimesOf(xs) == TimesOf(ys)
    requires LastBreak(TimesOf(xs), at, maxGap)
    ensures |xs| == |ys| && multiset(xs[at..]) == multiset(ys[at..])
  {
    assert |TimesOf(xs)| == |TimesOf(ys)|;
    if at == 0 {
      assert xs[0..] == xs && ys[0..] == ys;
    } else {
      SuffixByTime(xs, at, maxGap);
      SuffixByTime(ys, at, maxGap);
      FilterPermutes(xs, ys, From(xs[at].Time()));
    }
  }

  lemma SamePrefix<T>(xs: seq<T>, ys: seq<T>, at: nat)
    requires at <= |xs| == |ys| && multiset(xs) == multiset(ys) && multiset(xs[at..]) == multiset(ys[at..])
    ensures multiset(xs[..at]) == multiset(ys[..at])
  {
    assert xs == xs[..at] + xs[at..] && ys == ys[..at] + ys[at..];
    assert multiset(xs[..at]) == multiset(xs) - multiset(xs[at..]);
    assert multiset(ys[..at]) == multiset(ys) - multiset(ys[at..]);
  }

  ghost predicate SameMembers(groups: seq<seq<RouteTransition>>, others: seq<seq<RouteTransition>>) {
    |groups| == |others| && forall i :: 0 <= i < |groups| ==> multiset(groups[i]) == multiset(others[i])
  }

  lemma SameMembersSnoc(groups: seq<seq<RouteTransition>>, others: seq<seq<RouteTransition>>)
    requires groups != [] && others != [] && SameMembers(groups[..|groups| - 1], others[..|others| - 1])
    requires multiset(Last(groups)) == multiset(Last(others))
    ensures SameMembers(groups, others)
  {
    forall i | 0 <= i < |groups| ensures multiset(groups[i]) == multiset(others[i]) {
      if i < |groups| - 1 {
        assert groups[..|groups| - 1][i] == groups[i] && others[..|others| - 1][i] == others[i];
      }
    }
  }

  lemma PrefixInOrder(xs: seq<RouteTransition>, at: nat)
    requires at <= |xs| && Sorted(xs, NotLater)
    ensures Sorted(xs[..at], NotLater) && TimesOf(xs[..at]) == TimesOf(xs)[..at]
  {
  }

  lemma {:induction false} SplitSameMembers(
      xs: seq<RouteTransition>, ys: seq<RouteTransition>, maxGap: real, groups: seq<seq<RouteTransition>>,
      others: seq<seq<RouteTransition>>)
    requires maxGap >= 0.0 && Sorted(xs, NotLater) && Sorted(ys, NotLater)
    requires multiset(xs) == multiset(ys) && TimesOf(xs) == TimesOf(ys)
    requires IsSplit(groups, xs, NearTransitions(maxGap)) && IsSplit(others, ys, NearTransitions(maxGap))
    ensures SameMembers(groups, others)
    decreases |xs|
  {
    assert |TimesOf(xs)| == |TimesOf(ys)|;
    if xs == [] {
      if groups != [] { LastOfFlatten(groups); }
      if others != [] { LastOfFlatten(others); }
    } else {
      var at := LastRunBreaks(groups, xs, maxGap);
      var b := LastRunBreaks(others, ys, maxGap);
      LastBreakUnique(TimesOf(xs), at, b, maxGap);
      SameSuffix(xs, ys, at, maxGap);
      SamePrefix(xs, ys, at);
      PrefixInOrder(xs, at);
      PrefixInOrder(ys, at);
      SplitSameMembers(xs[..at], ys[..at], maxGap, groups[..|groups| - 1], others[..|others| - 1]);
      SameMembersSnoc(groups, others);
    }
  }

  ghost predicate LastBreak(times: seq<int>, at: nat, maxGap: real) {
    && at < |times|
    && (at > 0 ==> !Near(maxGap, times[at - 1], times[at]))
    && forall i, j :: at <= i < j < |times| && j == i + 1 ==> Near(maxGap, times[i], times[j])
  }

  lemma LastBreakUnique(times: seq<int>, a: nat, b: nat, maxGap: real)
    requires LastBreak(times, a, maxGap) && LastBreak(times, b, maxGap)
    ensures a == b
  {
  }

  lemma LastRunBreaks(groups: seq<seq<RouteTransition>>, xs: seq<RouteTransition>, maxGap: real) returns (at: nat)
    requires IsSplit(groups, xs, NearTransitions(maxGap)) && xs != []
    ensures LastBreak(TimesOf(xs), at, maxGap)
    ensures groups != [] && groups[|groups| - 1] == xs[at..]
    ensures IsSplit(groups[..|groups| - 1], xs[..at], NearTransitions(maxGap))
  {
    at := LastRun(groups, xs, NearTransitions(maxGap));
    forall i, j | at <= i < j < |xs| && j == i + 1 ensures Near(maxGap, TimesOf(xs)[i], TimesOf(xs)[j]) {
      assert NearTransitions(maxGap)(xs[i], xs[j]);
    }
  }

  // ---- So the waves agree ----

  lemma SameSupport(group: seq<RouteTransition>, other: seq<RouteTransition>, effect: WaveLabel, tp: TransitPredicate)
    requires multiset(group) == multiset(other)
    ensures Support(group, effect, tp) == Support(other, effect, tp)
  {
    FilterPermutes(group, other, Supporting(effect, tp));
    assert |multiset(Filter(group, Supporting(effect, tp)))| == |multiset(Filter(other, Supporting(effect, tp)))|;
  }

  /** Strictly more support than any other label leaves no choice. */
  lemma LabelUnique(
      a: WaveLabel, b: WaveLabel, group: seq<RouteTransition>, other: seq<RouteTransition>, tp: TransitPredicate)
    requires multiset(group) == multiset(other)
    requires IsLabel(a, group, tp) && IsLabel(b, other, tp)
    ensures a == b
  {
    forall effect ensures Support(group, effect, tp) == Support(other, effect, tp) {
      SameSupport(group, other, effect, tp);
    }
    assert forall effect :: Dominates(effect, group, tp) <==> Dominates(effect, other, tp);
  }

  lemma PeakUnique(start: int, end: int, start': int, end': int, times: seq<int>)
    requires IsPeak(start, end, times) && IsPeak(start', end', times)
    ensures start == start' && end == end'
  {
    assert InWindow(times, start) == InWindow(times, start');
  }

  lemma SameCounts(group: seq<RouteTransition>, other: seq<RouteTransition>, tp: TransitPredicate)
    requires multiset(group) == multiset(other)
    ensures StreamTexts(group) == StreamTexts(other) && RouteKeys(group) == RouteKeys(other)
    ensures RelativeOf(group, tp) == RelativeOf(other, tp)
  {
    forall t ensures t in group <==> t in other {
      assert t in group <==> t in multiset(group);
    }
    FilterPermutes(group, other, Retaining(tp));
    assert |multiset(Filter(group, Retaining(tp)))| == |multiset(Filter(other, Retaining(tp)))|;
    SameSupport(group, other, TransitDeparture, tp);
    SameSupport(group, other, TransitReturn, tp);
  }

  /** Equal but for the representative paths, which are those of the first transition. */
  predicate SameButRepresentative(w: SemanticWave, v: SemanticWave) {
    w == v.(representativeBefore := w.representativeBefore, representativeAfter := w.representativeAfter)
  }

  lemma SameLabelAndPeak(
      w: SemanticWave, v: SemanticWave, group: seq<RouteTransition>, other: seq<RouteTransition>,
      tp: TransitPredicate)
    requires WaveFor(tp)(w, group) && WaveFor(tp)(v, other)
    requires multiset(group) == multiset(other) && TimesOf(group) == TimesOf(other)
    ensures w.dominant == v.dominant && w.peakStart == v.peakStart && w.peakEnd == v.peakEnd
  {
    LabelUnique(w.dominant, v.dominant, group, other, tp);
    PeakUnique(w.peakStart, w.peakEnd, v.peakStart, v.peakEnd, TimesOf(group));
  }

  lemma SameCountsInWaves(
      w: SemanticWave, v: SemanticWave, group: seq<RouteTransition>, other: seq<RouteTransition>,
      tp: TransitPredicate)
    requires WaveFor(tp)(w, group) && WaveFor(tp)(v, other)
    requires multiset(group) == multiset(other)
    ensures w.streamCount == v.streamCount && w.routeInstanceCount == v.routeInstanceCount
      && w.eventRelative == v.eventRelative
  {
    SameCounts(group, other, tp);
  }

  lemma SameListing(list: seq<string>, other: seq<string>, elements: set<string>)
    requires ListsStrings(list, elements) && ListsStrings(other, elements)
    ensures list == other
  {
    StringBeforeIsStrict();
    StrictlySortedUnique(list, other, StringBefore);
  }

  lemma SameElements(group: seq<RouteTransition>, other: seq<RouteTransition>)
    requires multiset(group) == multiset(other)
    ensures PrefixesOf(group) == PrefixesOf(other) && PeersOf(group) == PeersOf(other)
    ensures forall id :: id in Map(group, ObservationOf) <==> id in Map(other, ObservationOf)
  {
    SameItems(group, other);
    MapPermutes(group, other, ObservationOf);
    SameItems(Map(group, ObservationOf), Map(other, ObservationOf));
  }

  lemma SameFacets(counts: Facets, others: Facets, group: seq<RouteTransition>, other: seq<RouteTransition>)
    requires CountsFacets(counts, group) && CountsFacets(others, other) && multiset(group) == multiset(other)
    ensures counts == others
  {
    forall f: Facet ensures counts.Of(f) == others.Of(f) {
      FilterPermutes(group, other, Showing(f));
      assert |multiset(Filter(group, Showing(f)))| == |multiset(Filter(other, Showing(f)))|;
    }
    FacetsUnique(counts, others);
  }

  lemma SameObservations(refs: seq<int>, others: seq<int>, group: seq<RouteTransition>, other: seq<RouteTransition>)
    requires ListsObservations(refs, group) && ListsObservations(others, other) && multiset(group) == multiset(other)
    ensures refs == others
  {
    SameElements(group, other);
    forall id ensures id in refs <==> id in others {
      assert id in Map(group, ObservationOf) <==> id in Map(other, ObservationOf);
    }
    forall x, y | IntBefore(x, y) ensures !IntBefore(y, x) { }
    StrictlySortedUnique(refs, others, IntBefore);
  }

  lemma SameDetails(w: SemanticWave, v: SemanticWave, group: seq<RouteTransition>, other: seq<RouteTransition>)
    requires HasDetails(w, group) && HasDetails(v, other) && multiset(group) == multiset(other)
    ensures w.prefixes == v.prefixes && w.peers == v.peers && w.facets == v.facets && w.evidenceRefs == v.evidenceRefs
  {
    SameElements(group, other);
    SameListing(w.prefixes, v.prefixes, PrefixesOf(group));
    SameListing(w.peers, v.peers, PeersOf(group));
    SameFacets(w.facets, v.facets, group, other);
    SameObservations(w.evidenceRefs, v.evidenceRefs, group, other);
  }

  lemma SameTimes(group: seq<RouteTransition>, other: seq<RouteTransition>)
    requires group != [] && TimesOf(group) == TimesOf(other)
    ensures other != [] && group[0].Time() == other[0].Time() && Last(group).Time() == Last(other).Time()
  {
    assert |TimesOf(group)| == |TimesOf(other)|;
    assert TimesOf(group)[0] == TimesOf(other)[0] && Last(TimesOf(group)) == Last(TimesOf(other));
  }

  lemma WaveIgnoresOrder(
      w: SemanticWave, v: SemanticWave, group: seq<RouteTransition>, other: seq<RouteTransition>,
      tp: TransitPredicate)
    requires WaveFor(tp)(w, group) && WaveFor(tp)(v, other) && w.id == v.id
    requires multiset(group) == multiset(other) && TimesOf(group) == TimesOf(other)
    ensures SameButRepresentative(w, v)
  {
    SameDetails(w, v, group, other);
    SameLabelAndPeak(w, v, group, other, tp);
    SameCountsInWaves(w, v, group, other, tp);
    WaveEnds(w, group, tp);
    WaveEnds(v, other, tp);
    SameTimes(group, other);
  }

  lemma GroupedWavesIgnoreOrder(
      ts: seq<RouteTransition>, us: seq<RouteTransition>, maxGap: real, tp: TransitPredicate,
      waves: seq<SemanticWave>, groups: seq<seq<RouteTransition>>, others: seq<SemanticWave>,
      otherGroups: seq<seq<RouteTransition>>)
    requires multiset(ts) == multiset(us) && maxGap >= 0.0
    requires Grouped(waves, groups, ts, maxGap, tp) && Grouped(others, otherGroups, us, maxGap, tp)
    ensures |waves| == |others| && forall i :: 0 <= i < |waves| ==> SameButRepresentative(waves[i], others[i])
  {
    SameEventTimes(ts, us);
    EventsInOrder(ts);
    EventsInOrder(us);
    SplitSameMembers(EventsOf(ts), EventsOf(us), maxGap, groups, otherGroups);
    BoundariesIgnoreOrder(ts, us, maxGap, groups, otherGroups);
    forall i | 0 <= i < |waves| ensures SameButRepresentative(waves[i], others[i]) {
      assert TimesOf(groups[i]) == MapEach(groups, TimeOf)[i] == MapEach(otherGroups, TimeOf)[i]
        == TimesOf(otherGroups[i]);
      WaveIgnoresOrder(waves[i], others[i], groups[i], otherGroups[i], tp);
    }
  }

  /** With a gap that is not negative, shuffling the input changes no wave but for its representative paths. */
  lemma WavesIgnoreOrder(
      ts: seq<RouteTransition>, us: seq<RouteTransition>, maxGap: real, tp: TransitPredicate,
      waves: seq<SemanticWave>, others: seq<SemanticWave>)
    requires multiset(ts) == multiset(us) && maxGap >= 0.0
    requires WavesOf(waves, ts, maxGap, tp) && WavesOf(others, us, maxGap, tp)
    ensures |waves| == |others| && forall i :: 0 <= i < |waves| ==> SameButRepresentative(waves[i], others[i])
  {
    var groups :| Grouped(waves, groups, ts, maxGap, tp);
    var otherGroups :| Grouped(others, otherGroups, us, maxGap, tp);
    GroupedWavesIgnoreOrder(ts, us, maxGap, tp, waves, groups, others, otherGroups);
  }

  /** The representative is whatever came first in the input when time and path identifier tie. */
  lemma RepresentativeFollowsInput(a: RouteTransition, b: RouteTransition)
    requires InEvent(a) && InEvent(b) && a.Time() == b.Time() && a.key.pathId == b.key.pathId
    ensures EventsOf([a, b]) == [a, b] && EventsOf([b, a]) == [b, a]
  {
    PairInOrder(a, b);
    PairInOrder(b, a);
  }

  lemma PairInOrder(a: RouteTransition, b: RouteTransition)
    requires InEvent(a) && InEvent(b) && Chronological(a, b)
    ensures EventsOf([a, b]) == [a, b]
  {
    assert [a, b][1..] == [b] && [b][1..] == [];
    assert Filter([b], InEvent) == [b];
    assert Filter([a, b], InEvent) == [a, b];
    assert SortBy([b], Chronological) == [b];
  }

  // ---- Counting streams by text ----

  lemma {:induction false} ColonSplitUnique(a: string, b: string, rest: string, rest': string)
    requires ':' !in a && ':' !in b && a + ":" + rest == b + ":" + rest'
    ensures a == b && rest == rest'
  {
    var s, s' := a + ":" + rest, b + ":" + rest';
    assert a != [] ==> a[0] in a && s[0] == a[0] && s[1..] == a[1..] + ":" + rest;
    assert b != [] ==> b[0] in b && s'[0] == b[0] && s'[1..] == b[1..] + ":" + rest';
    if a != [] && b != [] {
      ColonSplitUnique(a[1..], b[1..], rest, rest');
      assert a == [a[0]] + a[1..] && b == [b[0]] + b[1..];
    } else {
      assert a == [] ==> s[0] == ':' && rest == s[1..];
      assert b == [] ==> s'[0] == ':' && rest' == s'[1..];
    }
  }

  predicate ColonFree(s: StreamKey) { ':' !in s.collector && ':' !in s.peerIp }

  lemma TextTellsColonFreeApart(s: StreamKey, r: StreamKey)
    requires ColonFree(s) && ColonFree(r) && StreamText(s) == StreamText(r)
    ensures s == r
  {
    assert StreamText(s) == s.collector + ":" + (s.peerIp + ":" + s.prefix);
    assert StreamText(r) == r.collector + ":" + (r.peerIp + ":" + r.prefix);
    ColonSplitUnique(s.collector, r.collector, s.peerIp + ":" + s.prefix, r.peerIp + ":" + r.prefix);
    ColonSplitUnique(s.peerIp, r.peerIp, s.prefix, r.prefix);
  }

  function StreamsOf(group: seq<RouteTransition>): set<StreamKey> { set t | t in group :: t.key.stream }

  function Image<T, U>(xs: set<T>, f: T -> U): set<U> { set x | x in xs :: f(x) }

  lemma {:induction false} ImageSize<T(!new), U>(xs: set<T>, f: T -> U)
    requires forall x, y :: x in xs && y in xs && f(x) == f(y) ==> x == y
    ensures |Image(xs, f)| == |xs|
  {
    if xs == {} {
      assert Image(xs, f) == {};
    } else {
      var x :| x in xs;
      ImageSize(xs - {x}, f);
      assert Image(xs, f) == Image(xs - {x}, f) + {f(x)};
      assert f(x) !in Image(xs - {x}, f);
    }
  }

  /** What comes before the prefix in a stream's text. */
  datatype Head = Head(collector: string, peerIp: string)

  function HeadOf(s: StreamKey): Head { Head(s.collector, s.peerIp) }

  function HeadText(h: Head): string { h.collector + ":" + h.peerIp + ":" }

  predicate Begins(a: string, b: string) { |a| <= |b| && b[..|a|] == a }

  ghost predicate PrefixFree(heads: set<Head>) {
    forall h, g :: h in heads && g in heads && h != g ==> !Begins(HeadText(h), HeadText(g))
  }

  ghost predicate TextsTellApart(heads: set<Head>) {
    forall s, r :: HeadOf(s) in heads && HeadOf(r) in heads && StreamText(s) == StreamText(r) ==> s == r
  }

  lemma BeginsBoth(a: string, b: string, x: string, y: string)
    requires a + x == b + y
    ensures Begins(a, b) || Begins(b, a)
    ensures a == b ==> x == y
  {
    var s := a + x;
    assert a == s[..|a|] && b == s[..|b|] && x == s[|a|..] && y == s[|b|..];
    if |a| <= |b| { assert b[..|a|] == s[..|a|]; } else { assert a[..|b|] == s[..|b|]; }
  }

  /** The texts of all streams over some collectors and peers differ exactly when none of the heads begins another. */
  lemma TextsTellApartExactly(heads: set<Head>)
    ensures TextsTellApart(heads) <==> PrefixFree(heads)
  {
    if PrefixFree(heads) {
      forall s, r | HeadOf(s) in heads && HeadOf(r) in heads && StreamText(s) == StreamText(r) ensures s == r {
        BeginsBoth(HeadText(HeadOf(s)), HeadText(HeadOf(r)), s.prefix, r.prefix);
        assert HeadOf(s) == HeadOf(r);
      }
    } else {
      var h, g :| h in heads && g in heads && h != g && Begins(HeadText(h), HeadText(g));
      var rest := HeadText(g)[|HeadText(h)|..];
      var s, r := StreamKey(g.collector, g.peerIp, ""), StreamKey(h.collector, h.peerIp, rest);
      assert HeadText(h) + rest == HeadText(g) == StreamText(s);
      assert HeadOf(s) == g && HeadOf(r) == h;
    }
  }

  function HeadsOf(group: seq<RouteTransition>): set<Head> { set t | t in group :: HeadOf(t.key.stream) }

  /** Without colons in collectors and peers, as for IPv4 peers, no head begins another. */
  lemma ColonFreeHeads(group: seq<RouteTransition>)
    requires forall t :: t in group ==> ColonFree(t.key.stream)
    ensures PrefixFree(HeadsOf(group))
  {
    forall h, g | h in HeadsOf(group) && g in HeadsOf(group) && h != g ensures !Begins(HeadText(h), HeadText(g)) {
      if Begins(HeadText(h), HeadText(g)) {
        var rest := HeadText(g)[|HeadText(h)|..];
        var s, r := StreamKey(g.collector, g.peerIp, ""), StreamKey(h.collector, h.peerIp, rest);
        assert HeadText(h) + rest == HeadText(g) == StreamText(s);
        TextTellsColonFreeApart(s, r);
      }
    }
  }

  /** If no head begins another, the number of texts is the number of streams. */
  lemma StreamCountExact(group: seq<RouteTransition>)
    requires PrefixFree(HeadsOf(group))
    ensures |StreamTexts(group)| == |StreamsOf(group)|
  {
    TextsTellApartExactly(HeadsOf(group));
    forall s, r | s in StreamsOf(group) && r in StreamsOf(group) && StreamText(s) == StreamText(r) ensures s == r {
      assert HeadOf(s) in HeadsOf(group) && HeadOf(r) in HeadsOf(group);
    }
    ImageSize(StreamsOf(group), StreamText);
    var image := Image(StreamsOf(group), StreamText);
    forall y ensures y in StreamTexts(group) <==> y in image {
      if y in StreamTexts(group) {
        var t :| t in group && StreamText(t.key.stream) == y;
        assert t.key.stream in StreamsOf(group);
      }
    }
    assert StreamTexts(group) == image;
  }

  /** Two IPv6 streams with one text: they count as one. */
  lemma StreamTextsCollide(s: StreamKey, r: StreamKey)
    requires s == StreamKey("rrc00", "1::2", "3:4::/64") && r == StreamKey("rrc00", "1::2:3", "4::/64")
    ensures s != r && StreamText(s) == StreamText(r)
  {
    assert |s.peerIp| != |r.peerIp|;
    assert "1::2:3" == "1::2" + ":" + "3" && "3:4::/64" == "3" + ":" + "4::/64";
    assert StreamText(s) == "rrc00" + ":" + "1::2" + ":" + "3" + ":" + "4::/64";
    assert StreamText(r) == "rrc00" + ":" + "1::2" + ":" + "3" + ":" + "4::/64";
  }
}
