/** The representative paths of waves: exactly when they do not depend on the order of the input. */
module WaveRepresentatives {
  import opened Prelude
  import opened Seqs
  import opened Sorting
  import opened Routes
  import opened Lifecycle
  import opened LifecycleRuns
  import opened Runs
  import opened Waves
  import opened WaveProofs

  datatype Paths = Paths(before: seq<U32>, after: seq<U32>)

  function PathsOf(t: RouteTransition): Paths { Paths(PathOf(t.from), PathOf(t.to)) }

  // ---- The first transition of each run ----

  predicate StartsRun(xs: seq<RouteTransition>, at: nat, maxGap: real) {
    at < |xs| && (at == 0 || !Near(maxGap, xs[at - 1].Time(), xs[at].Time()))
  }

  /** The transitions that open a wave, in order. */
  function Heads(xs: seq<RouteTransition>, maxGap: real): seq<RouteTransition> {
    if xs == [] then []
    else
      var n := |xs| - 1;
      Heads(xs[..n], maxGap) + if StartsRun(xs, n, maxGap) then [xs[n]] else []
  }

  lemma PrefixTimes(xs: seq<RouteTransition>, at: nat)
    requires at <= |xs|
    ensures TimesOf(xs[..at]) == TimesOf(xs)[..at]
  {
  }

  /** The joined transitions after a start add no start. */
  lemma {:induction false} HeadsOfLastRun(xs: seq<RouteTransition>, at: nat, maxGap: real)
    requires LastBreak(TimesOf(xs), at, maxGap)
    ensures Heads(xs, maxGap) == Heads(xs[..at], maxGap) + [xs[at]]
    decreases |xs|
  {
    var n := |xs| - 1;
    if at < n {
      var init, times := xs[..n], TimesOf(xs);
      PrefixTimes(xs, n);
      assert Near(maxGap, times[n - 1], times[n]);
      assert LastBreak(TimesOf(init), at, maxGap);
      HeadsOfLastRun(init, at, maxGap);
      assert init[..at] == xs[..at];
    }
  }

  function FirstOf(group: seq<RouteTransition>): seq<RouteTransition> {
    if group == [] then [] else [group[0]]
  }

  function Firsts(groups: seq<seq<RouteTransition>>): seq<RouteTransition> {
    if groups == [] then [] else Firsts(groups[..|groups| - 1]) + FirstOf(Last(groups))
  }

  lemma {:induction false} FirstsAreHeads(groups: seq<seq<RouteTransition>>, xs: seq<RouteTransition>, maxGap: real)
    requires IsSplit(groups, xs, NearTransitions(maxGap))
    ensures Firsts(groups) == Heads(xs, maxGap)
    decreases |xs|
  {
    if xs == [] {
      if groups != [] { LastOfFlatten(groups); }
    } else {
      var at := LastRunBreaks(groups, xs, maxGap);
      FirstsAreHeads(groups[..|groups| - 1], xs[..at], maxGap);
      HeadsOfLastRun(xs, at, maxGap);
    }
  }

  // ---- Equal representatives ----

  function RepresentativesOf(xs: seq<RouteTransition>, maxGap: real): seq<Paths> {
    Map(Heads(xs, maxGap), PathsOf)
  }

  lemma {:induction false} HeadsCount(xs: seq<RouteTransition>, ys: seq<RouteTransition>, maxGap: real)
    requires TimesOf(xs) == TimesOf(ys)
    ensures |Heads(xs, maxGap)| == |Heads(ys, maxGap)|
    decreases |xs|
  {
    assert |TimesOf(xs)| == |TimesOf(ys)|;
    if xs != [] {
      PrefixTimes(xs, |xs| - 1);
      PrefixTimes(ys, |xs| - 1);
      HeadsCount(xs[..|xs| - 1], ys[..|xs| - 1], maxGap);
    }
  }

  predicate SameAt(xs: seq<RouteTransition>, ys: seq<RouteTransition>, at: nat, maxGap: real)
    requires at < |xs| == |ys|
  {
    StartsRun(xs, at, maxGap) ==> PathsOf(xs[at]) == PathsOf(ys[at])
  }

  ghost predicate SameAtStarts(xs: seq<RouteTransition>, ys: seq<RouteTransition>, maxGap: real)
    requires |xs| == |ys|
  {
    forall at: nat :: at < |xs| ==> SameAt(xs, ys, at, maxGap)
  }

  lemma StartsInPrefix(xs: seq<RouteTransition>, n: nat, at: nat, maxGap: real)
    requires at < n <= |xs|
    ensures StartsRun(xs[..n], at, maxGap) <==> StartsRun(xs, at, maxGap)
  {
    var init := xs[..n];
    assert init[at] == xs[at] && (at > 0 ==> init[at - 1] == xs[at - 1]);
  }

  lemma StartsOfPrefix(xs: seq<RouteTransition>, ys: seq<RouteTransition>, maxGap: real)
    requires |xs| == |ys| > 0
    ensures
      var n := |xs| - 1;
      SameAtStarts(xs, ys, maxGap) <==> SameAtStarts(xs[..n], ys[..n], maxGap) && SameAt(xs, ys, n, maxGap)
  {
    var n := |xs| - 1;
    var xsInit, ysInit := xs[..n], ys[..n];
    forall at: nat | at < n ensures SameAt(xsInit, ysInit, at, maxGap) <==> SameAt(xs, ys, at, maxGap) {
      StartsInPrefix(xs, n, at, maxGap);
    }
    if SameAtStarts(xs, ys, maxGap) {
      forall at: nat | at < n ensures SameAt(xsInit, ysInit, at, maxGap) { assert SameAt(xs, ys, at, maxGap); }
    }
    if SameAtStarts(xsInit, ysInit, maxGap) && SameAt(xs, ys, n, maxGap) {
      forall at: nat | at < |xs| ensures SameAt(xs, ys, at, maxGap) {
        assert at < n ==> SameAt(xsInit, ysInit, at, maxGap);
      }
    }
  }

  lemma SnocEqual<T>(on: bool, a: seq<T>, x: T, b: seq<T>, y: T)
    requires |a| == |b|
    ensures a + (if on then [x] else []) == b + (if on then [y] else []) <==> a == b && (on ==> x == y)
  {
    if on {
      assert (a + [x])[..|a|] == a && (b + [y])[..|b|] == b;
      assert (a + [x])[|a|] == x && (b + [y])[|b|] == y;
    } else {
      assert a + [] == a && b + [] == b;
    }
  }

  lemma SameStarts(xs: seq<RouteTransition>, ys: seq<RouteTransition>, at: nat, maxGap: real)
    requires at < |xs| == |ys| && TimesOf(xs) == TimesOf(ys)
    ensures StartsRun(xs, at, maxGap) <==> StartsRun(ys, at, maxGap)
  {
    assert xs[at].Time() == TimesOf(xs)[at] == ys[at].Time();
    assert at > 0 ==> xs[at - 1].Time() == TimesOf(xs)[at - 1] == ys[at - 1].Time();
  }

  lemma RepresentativesSnoc(xs: seq<RouteTransition>, maxGap: real)
    requires xs != []
    ensures
      var n := |xs| - 1;
      RepresentativesOf(xs, maxGap)
        == RepresentativesOf(xs[..n], maxGap) + (if StartsRun(xs, n, maxGap) then [PathsOf(xs[n])] else [])
  {
    MapSnoc(Heads(xs[..|xs| - 1], maxGap), xs[|xs| - 1], PathsOf);
  }

  lemma {:induction false} SameRepresentatives(xs: seq<RouteTransition>, ys: seq<RouteTransition>, maxGap: real)
    requires |xs| == |ys| && TimesOf(xs) == TimesOf(ys)
    ensures RepresentativesOf(xs, maxGap) == RepresentativesOf(ys, maxGap) <==> SameAtStarts(xs, ys, maxGap)
    decreases |xs|
  {
    if xs != [] {
      var n := |xs| - 1;
      var xsInit, ysInit := xs[..n], ys[..n];
      PrefixTimes(xs, n);
      PrefixTimes(ys, n);
      SameRepresentatives(xsInit, ysInit, maxGap);
      StartsOfPrefix(xs, ys, maxGap);
      HeadsCount(xsInit, ysInit, maxGap);
      SameStarts(xs, ys, n, maxGap);
      RepresentativesSnoc(xs, maxGap);
      RepresentativesSnoc(ys, maxGap);
      SnocEqual(StartsRun(xs, n, maxGap), RepresentativesOf(xsInit, maxGap), PathsOf(xs[n]),
        RepresentativesOf(ysInit, maxGap), PathsOf(ys[n]));
    }
  }

  // ---- Ties ----

  predicate Ties(a: RouteTransition, b: RouteTransition) { a.Time() == b.Time() && a.key.pathId == b.key.pathId }

  datatype Slot = Slot(time: int, pathId: Option<U32>)

  function SlotOf(t: RouteTransition): Slot { Slot(t.Time(), t.key.pathId) }

  predicate SlotAtMost(a: Slot, b: Slot) {
    a.time < b.time || (a.time == b.time && PathIdAtMost(a.pathId, b.pathId))
  }

  lemma {:induction false} EventsChronological(ts: seq<RouteTransition>)
    ensures Sorted(EventsOf(ts), Chronological)
    ensures multiset(EventsOf(ts)) == multiset(Filter(ts, InEvent))
  {
    ChronologicalIsTotal();
    SortSorts(Filter(ts, InEvent), Chronological);
    SortPermutes(Filter(ts, InEvent), Chronological);
  }

  function SlotsOf(xs: seq<RouteTransition>): (slots: seq<Slot>)
    ensures |slots| == |xs| && forall i :: 0 <= i < |xs| ==> slots[i] == SlotOf(xs[i])
  {
    Map(xs, SlotOf)
  }

  lemma SlotsInOrder(xs: seq<RouteTransition>)
    requires Sorted(xs, Chronological)
    ensures Sorted(SlotsOf(xs), SlotAtMost)
  {
    forall i, j | 0 <= i < j < |xs| ensures SlotAtMost(SlotsOf(xs)[i], SlotsOf(xs)[j]) {
      assert Chronological(xs[i], xs[j]);
    }
  }

  lemma SortedSlotsUnique(xs: seq<RouteTransition>, ys: seq<RouteTransition>)
    requires Sorted(xs, Chronological) && Sorted(ys, Chronological) && multiset(xs) == multiset(ys)
    ensures SlotsOf(xs) == SlotsOf(ys)
  {
    MapPermutes(xs, ys, SlotOf);
    SlotsInOrder(xs);
    SlotsInOrder(ys);
    SortedUnique(SlotsOf(xs), SlotsOf(ys), SlotAtMost);
  }

  lemma TiesFromSlots(xs: seq<RouteTransition>, ys: seq<RouteTransition>)
    requires SlotsOf(xs) == SlotsOf(ys)
    ensures |xs| == |ys| && forall i :: 0 <= i < |xs| ==> Ties(xs[i], ys[i])
  {
    assert |SlotsOf(xs)| == |SlotsOf(ys)|;
    forall i | 0 <= i < |xs| ensures Ties(xs[i], ys[i]) {
      assert SlotOf(xs[i]) == SlotsOf(xs)[i] == SlotOf(ys[i]);
    }
  }

  /** Whatever the input order, the same times and path identifiers come at the same positions. */
  lemma SameSlots(ts: seq<RouteTransition>, us: seq<RouteTransition>)
    requires multiset(ts) == multiset(us)
    ensures multiset(EventsOf(ts)) == multiset(EventsOf(us)) && |EventsOf(ts)| == |EventsOf(us)|
    ensures forall i :: 0 <= i < |EventsOf(ts)| ==> Ties(EventsOf(ts)[i], EventsOf(us)[i])
  {
    EventsChronological(ts);
    EventsChronological(us);
    FilterPermutes(ts, us, InEvent);
    SortedSlotsUnique(EventsOf(ts), EventsOf(us));
    TiesFromSlots(EventsOf(ts), EventsOf(us));
  }

  function TiedWith(t: RouteTransition): RouteTransition -> bool {
    (x: RouteTransition) => Ties(x, t)
  }

  /** Listed first, an event transition comes first among those that tie with it. */
  lemma FirstListedLeads(x: RouteTransition, rest: seq<RouteTransition>) returns (at: nat)
    requires InEvent(x)
    ensures
      var events := EventsOf([x] + rest);
      at < |events| && events[at] == x && forall i :: 0 <= i < at ==> !Ties(events[i], x)
  {
    var wanted := Filter([x] + rest, InEvent);
    FilterFront(x, rest, InEvent);
    ChronologicalIsTotal();
    var ties := Filter(wanted, TiedWith(x));
    assert wanted == [x] + Filter(rest, InEvent);
    FilterFront(x, Filter(rest, InEvent), TiedWith(x));
    forall i, j | 0 <= i < j < |ties| ensures Chronological(ties[i], ties[j]) {
      FilterMember(wanted, TiedWith(x), ties[i]);
      FilterMember(wanted, TiedWith(x), ties[j]);
    }
    SortKeepsOrderedPart(wanted, Chronological, TiedWith(x));
    at := FirstPassing(EventsOf([x] + rest), TiedWith(x));
  }

  /** The first of its ties in the order of the events. */
  lemma {:induction false} LeaderOf(xs: seq<RouteTransition>, at: nat) returns (lead: nat)
    requires at < |xs|
    ensures lead <= at && Ties(xs[lead], xs[at]) && forall i :: 0 <= i < lead ==> !Ties(xs[i], xs[at])
  {
    lead := at;
    if i: nat :| i < at && Ties(xs[i], xs[at]) {
      lead := LeaderOf(xs, i);
      forall j | 0 <= j < lead ensures !Ties(xs[j], xs[at]) {
        assert !Ties(xs[j], xs[i]);
      }
    }
  }

  /** Where a tie leads, a run starts if one starts anywhere in the tie. */
  lemma LeaderStarts(xs: seq<RouteTransition>, lead: nat, at: nat, maxGap: real)
    requires Sorted(xs, NotLater) && lead <= at < |xs| && Ties(xs[lead], xs[at])
    requires StartsRun(xs, at, maxGap)
    ensures StartsRun(xs, lead, maxGap)
  {
    if 0 < lead < at {
      assert NotLater(xs[lead], xs[at - 1]) && NotLater(xs[at - 1], xs[at]) && NotLater(xs[lead - 1], xs[lead]);
    }
  }

  // ---- Independence of the input order, exactly ----

  predicate OpensAt(xs: seq<RouteTransition>, maxGap: real, t: RouteTransition, at: nat) {
    StartsRun(xs, at, maxGap) && xs[at] == t
  }

  ghost predicate Opens(xs: seq<RouteTransition>, maxGap: real, t: RouteTransition) {
    exists at: nat :: OpensAt(xs, maxGap, t, at)
  }

  lemma OpensInPrefix(xs: seq<RouteTransition>, maxGap: real, t: RouteTransition, n: nat, at: nat)
    requires n <= |xs|
    ensures OpensAt(xs[..n], maxGap, t, at) <==> at < n && OpensAt(xs, maxGap, t, at)
  {
    if at < n { StartsInPrefix(xs, n, at, maxGap); }
  }

  lemma OpensSnoc(xs: seq<RouteTransition>, maxGap: real, t: RouteTransition)
    requires xs != []
    ensures
      var n := |xs| - 1;
      Opens(xs, maxGap, t) <==> Opens(xs[..n], maxGap, t) || OpensAt(xs, maxGap, t, n)
  {
    var n := |xs| - 1;
    forall at: nat ensures OpensAt(xs[..n], maxGap, t, at) <==> at < n && OpensAt(xs, maxGap, t, at) {
      OpensInPrefix(xs, maxGap, t, n, at);
    }
    assert forall at: nat :: OpensAt(xs, maxGap, t, at) ==> at < n || at == n;
  }

  lemma {:induction false} HeadsAreStarts(xs: seq<RouteTransition>, maxGap: real, t: RouteTransition)
    ensures t in Heads(xs, maxGap) <==> Opens(xs, maxGap, t)
  {
    if xs != [] {
      HeadsAreStarts(xs[..|xs| - 1], maxGap, t);
      OpensSnoc(xs, maxGap, t);
    }
  }

  ghost predicate RepresentativesIgnoreOrder(ts: seq<RouteTransition>, maxGap: real) {
    forall us :: multiset(ts) == multiset(us) ==>
      RepresentativesOf(EventsOf(us), maxGap) == RepresentativesOf(EventsOf(ts), maxGap)
  }

  /** Event transitions that tie with the first of a wave share its paths. */
  ghost predicate TiesShareFirst(ts: seq<RouteTransition>, maxGap: real) {
    forall first, x ::
      first in Heads(EventsOf(ts), maxGap) && x in EventsOf(ts) && Ties(x, first) ==> PathsOf(x) == PathsOf(first)
  }

  lemma SameTimesFromSlots(xs: seq<RouteTransition>, ys: seq<RouteTransition>)
    requires |xs| == |ys| && forall i :: 0 <= i < |xs| ==> Ties(xs[i], ys[i])
    ensures TimesOf(xs) == TimesOf(ys)
  {
  }

  lemma SharedTiesAreEnough(ts: seq<RouteTransition>, us: seq<RouteTransition>, maxGap: real)
    requires TiesShareFirst(ts, maxGap) && multiset(ts) == multiset(us)
    ensures RepresentativesOf(EventsOf(us), maxGap) == RepresentativesOf(EventsOf(ts), maxGap)
  {
    var xs, ys := EventsOf(ts), EventsOf(us);
    SameSlots(ts, us);
    SameItems(xs, ys);
    SameTimesFromSlots(xs, ys);
    forall at: nat | at < |xs| ensures SameAt(xs, ys, at, maxGap) {
      if StartsRun(xs, at, maxGap) {
        HeadsAreStarts(xs, maxGap, xs[at]);
        assert OpensAt(xs, maxGap, xs[at], at);
        assert ys[at] in ys && Ties(ys[at], xs[at]);
      }
    }
    SameRepresentatives(xs, ys, maxGap);
  }

  /** The order of the events once `x` is listed first: it leads its ties, where they lead in any other order. */
  lemma LeadsEverywhere(ts: seq<RouteTransition>, x: RouteTransition, lead: nat) returns (us: seq<RouteTransition>)
    requires x in ts && InEvent(x) && lead < |EventsOf(ts)|
    requires Ties(EventsOf(ts)[lead], x) && forall i :: 0 <= i < lead ==> !Ties(EventsOf(ts)[i], x)
    ensures multiset(us) == multiset(ts)
    ensures lead < |EventsOf(us)| && EventsOf(us)[lead] == x
  {
    var rest := MoveToFront(ts, x);
    us := [x] + rest;
    var at := FirstListedLeads(x, rest);
    SameSlots(ts, us);
    assert at == lead by {
      assert Ties(EventsOf(us)[lead], x) && Ties(EventsOf(ts)[at], x);
    }
  }

  lemma {:induction false} OrdersDisagree(
      ts: seq<RouteTransition>, maxGap: real, first: RouteTransition, x: RouteTransition)
    requires first in Heads(EventsOf(ts), maxGap) && x in EventsOf(ts) && Ties(x, first) && PathsOf(x) != PathsOf(first)
    ensures !RepresentativesIgnoreOrder(ts, maxGap)
  {
    var xs := EventsOf(ts);
    EventsChronological(ts);
    EventsInOrder(ts);
    HeadsAreStarts(xs, maxGap, first);
    var at: nat :| OpensAt(xs, maxGap, first, at);
    var lead := LeaderOf(xs, at);
    LeaderStarts(xs, lead, at, maxGap);
    SameItems(xs, Filter(ts, InEvent));
    FilterMember(ts, InEvent, first);
    FilterMember(ts, InEvent, x);
    var us := LeadsEverywhere(ts, x, lead);
    var vs := LeadsEverywhere(ts, first, lead);
    DifferAtLead(ts, us, vs, lead, maxGap);
  }

  lemma DifferAtLead(
      ts: seq<RouteTransition>, us: seq<RouteTransition>, vs: seq<RouteTransition>, lead: nat, maxGap: real)
    requires multiset(us) == multiset(ts) == multiset(vs) && lead < |EventsOf(ts)|
    requires lead < |EventsOf(us)| && lead < |EventsOf(vs)|
      && PathsOf(EventsOf(us)[lead]) != PathsOf(EventsOf(vs)[lead])
    requires StartsRun(EventsOf(ts), lead, maxGap)
    ensures !RepresentativesIgnoreOrder(ts, maxGap)
  {
    SameSlots(ts, us);
    SameSlots(us, vs);
    SameTimesFromSlots(EventsOf(ts), EventsOf(us));
    SameTimesFromSlots(EventsOf(us), EventsOf(vs));
    SameStarts(EventsOf(ts), EventsOf(us), lead, maxGap);
    DifferentRepresentatives(EventsOf(us), EventsOf(vs), lead, maxGap);
  }

  lemma DifferentRepresentatives(xs: seq<RouteTransition>, ys: seq<RouteTransition>, at: nat, maxGap: real)
    requires at < |xs| == |ys| && TimesOf(xs) == TimesOf(ys)
    requires StartsRun(xs, at, maxGap) && PathsOf(xs[at]) != PathsOf(ys[at])
    ensures RepresentativesOf(xs, maxGap) != RepresentativesOf(ys, maxGap)
  {
    SameRepresentatives(xs, ys, maxGap);
    assert !SameAt(xs, ys, at, maxGap);
  }

  /**
   * The representative paths are the same for every order of the input exactly when
   * transitions that tie with the first of a wave share its paths. Any gap will do.
   */
  lemma RepresentativesIgnoreOrderExactly(ts: seq<RouteTransition>, maxGap: real)
    ensures RepresentativesIgnoreOrder(ts, maxGap) <==> TiesShareFirst(ts, maxGap)
  {
    if TiesShareFirst(ts, maxGap) {
      forall us | multiset(ts) == multiset(us)
        ensures RepresentativesOf(EventsOf(us), maxGap) == RepresentativesOf(EventsOf(ts), maxGap) {
        SharedTiesAreEnough(ts, us, maxGap);
      }
    } else {
      var first, x :| first in Heads(EventsOf(ts), maxGap) && x in EventsOf(ts) && Ties(x, first)
        && PathsOf(x) != PathsOf(first);
      OrdersDisagree(ts, maxGap, first, x);
    }
  }

  // ---- The waves ----

  function WavePaths(w: SemanticWave): Paths { Paths(w.representativeBefore, w.representativeAfter) }

  lemma {:induction false} BuiltPaths(
      waves: seq<SemanticWave>, groups: seq<seq<RouteTransition>>, good: (SemanticWave, seq<RouteTransition>) -> bool)
    requires Built(waves, groups, good)
    requires forall w: SemanticWave, group: seq<RouteTransition> :: good(w, group) ==>
      group != [] && WavePaths(w) == PathsOf(group[0])
    ensures Map(waves, WavePaths) == Map(Firsts(groups), PathsOf)
  {
    if waves != [] {
      var n := |waves| - 1;
      BuiltPaths(waves[..n], groups[..n], good);
      assert good(waves[n], groups[n]);
      assert waves == waves[..n] + [waves[n]];
      MapSnoc(waves[..n], waves[n], WavePaths);
      MapSnoc(Firsts(groups[..n]), groups[n][0], PathsOf);
    }
  }

  /** The waves' representatives are the paths of the transitions that open them. */
  lemma WaveRepresentatives(waves: seq<SemanticWave>, ts: seq<RouteTransition>, maxGap: real, tp: TransitPredicate)
    requires WavesOf(waves, ts, maxGap, tp)
    ensures Map(waves, WavePaths) == RepresentativesOf(EventsOf(ts), maxGap)
  {
    var groups :| Grouped(waves, groups, ts, maxGap, tp);
    forall w: SemanticWave, group: seq<RouteTransition> | WaveFor(tp)(w, group)
      ensures group != [] && WavePaths(w) == PathsOf(group[0]) {
      WaveEnds(w, group, tp);
    }
    BuiltPaths(waves, groups, WaveFor(tp));
    FirstsAreHeads(groups, EventsOf(ts), maxGap);
  }

  /** Under that condition, and for a gap that is not negative, no order of the input changes anything in any wave. */
  lemma WavesFixed(
      ts: seq<RouteTransition>, us: seq<RouteTransition>, maxGap: real, tp: TransitPredicate,
      waves: seq<SemanticWave>, others: seq<SemanticWave>)
    requires multiset(ts) == multiset(us) && maxGap >= 0.0 && TiesShareFirst(ts, maxGap)
    requires WavesOf(waves, ts, maxGap, tp) && WavesOf(others, us, maxGap, tp)
    ensures waves == others
  {
    WavesIgnoreOrder(ts, us, maxGap, tp, waves, others);
    SharedTiesAreEnough(ts, us, maxGap);
    WaveRepresentatives(waves, ts, maxGap, tp);
    WaveRepresentatives(others, us, maxGap, tp);
    forall i | 0 <= i < |waves| ensures waves[i] == others[i] {
      assert SameButRepresentative(waves[i], others[i]);
      assert WavePaths(waves[i]) == Map(waves, WavePaths)[i] == Map(others, WavePaths)[i] == WavePaths(others[i]);
    }
  }
}
