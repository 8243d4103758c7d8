/** `build_lifecycles`: one record per stream, in a fixed order, whatever the hash maps do. */
module Streams {
  import opened Prelude
  import opened Seqs
  import opened Sorting
  import opened Orders
  import opened Routes
  import opened Lifecycle
  import opened LifecycleProofs
  import opened LifecycleRuns
  import opened LifecycleBuilder
  import opened Restorations
  import opened Cohort
  import opened Observations

  // ---- The output order ----

  function CompareStream(a: StreamKey, b: StreamKey): Ordering {
    CompareString(a.collector,
      b.collector).Then(CompareString(a.peerIp, b.peerIp).Then(CompareString(a.prefix, b.prefix)))
  }

  predicate Before(a: StreamKey, b: StreamKey) { CompareStream(a, b) == Less }

  predicate NotAfter(a: StreamLifecycle, b: StreamLifecycle) { CompareStream(a.stream, b.stream) != Greater }

  lemma StreamOrderLawful()
    ensures Lawful(CompareStream)
    ensures forall a, b :: CompareStream(a, b) == Equal <==> a == b
  {
    StringLawful();
    var byCollector := (a: StreamKey, b: StreamKey) => CompareString(a.collector, b.collector);
    var byPeer := (a: StreamKey, b: StreamKey) => CompareString(a.peerIp, b.peerIp);
    var byPrefix := (a: StreamKey, b: StreamKey) => CompareString(a.prefix, b.prefix);
    var byRest :=
      (a: StreamKey, b: StreamKey) => CompareString(a.peerIp, b.peerIp).Then(CompareString(a.prefix, b.prefix));
    ThenLawful(byPeer, byPrefix, byRest);
    ThenLawful(byCollector, byRest, CompareStream);
  }

  lemma BeforeIsStrict()
    ensures forall a, b :: Before(a, b) ==> !Before(b, a)
  {
    StreamOrderLawful();
    forall a, b | Before(a, b) ensures !Before(b, a) {
      assert CompareStream(b, a) == CompareStream(a, b).Reversed();
    }
  }

  lemma RecordOrderIsTotal()
    ensures TotalPreorder(NotAfter)
  {
    StreamOrderLawful();
    forall a, b ensures NotAfter(a, b) || NotAfter(b, a) {
      assert CompareStream(b.stream, a.stream) == CompareStream(a.stream, b.stream).Reversed();
    }
  }

  /** By collector, then peer, then prefix. */
  ghost predicate ListedBefore(a: StreamKey, b: StreamKey) {
    || Precedes(a.collector, b.collector)
    || (a.collector == b.collector && (Precedes(a.peerIp, b.peerIp)
      || (a.peerIp == b.peerIp && Precedes(a.prefix, b.prefix))))
  }

  lemma StreamOrderMeaning(a: StreamKey, b: StreamKey)
    ensures Before(a, b) <==> ListedBefore(a, b)
  {
    StringReverses(a.collector, b.collector);
    StringReverses(a.peerIp, b.peerIp);
    CompareStringMeaning(a.collector, b.collector);
    CompareStringMeaning(a.peerIp, b.peerIp);
    CompareStringMeaning(a.prefix, b.prefix);
  }

  // ---- What the result must be ----

  function InStream(stream: StreamKey): RouteTransition -> bool {
    (t: RouteTransition) => t.key.stream == stream
  }

  function TransitionsOf(ts: seq<RouteTransition>, stream: StreamKey): seq<RouteTransition> {
    Filter(ts, InStream(stream))
  }

  function BaselineOf(cohort: FrozenCohort, stream: StreamKey): Instances {
    if stream in cohort.streams && stream in cohort.baselines then cohort.baselines[stream] else map[]
  }

  ghost predicate OwnBaselines(cohort: FrozenCohort) {
    forall s :: s in cohort.baselines ==> forall k :: k in cohort.baselines[s] ==> k.stream == s
  }

  predicate Appears(ts: seq<RouteTransition>, cohort: FrozenCohort, stream: StreamKey) {
    stream in cohort.streams || TransitionsOf(ts, stream) != []
  }

  ghost predicate IsRecord(
      lc: StreamLifecycle, ts: seq<RouteTransition>, cohort: FrozenCohort, cooldownEnd: int, tp: TransitPredicate)
  {
    IsLifecycle(lc, lc.stream, BaselineOf(cohort, lc.stream), SortBy(TransitionsOf(ts, lc.stream), Chronological),
      cooldownEnd, tp)
  }

  function StreamOf(lc: StreamLifecycle): StreamKey { lc.stream }

  ghost function Records(
      ts: seq<RouteTransition>, cohort: FrozenCohort, cooldownEnd: int, tp: TransitPredicate): StreamLifecycle -> bool
  {
    lc => IsRecord(lc, ts, cohort, cooldownEnd, tp)
  }

  ghost predicate All(lcs: seq<StreamLifecycle>, good: StreamLifecycle -> bool) {
    forall i :: 0 <= i < |lcs| ==> good(lcs[i])
  }

  ghost predicate OneForEach(lcs: seq<StreamLifecycle>, ts: seq<RouteTransition>, cohort: FrozenCohort) {
    && Sorted(Map(lcs, StreamOf), Before)
    && forall s :: s in Map(lcs, StreamOf) <==> Appears(ts, cohort, s)
  }

  /** Exactly one record for each stream of the cohort or the transitions, strictly ordered. */
  ghost predicate AreLifecycles(
      lcs: seq<StreamLifecycle>, ts: seq<RouteTransition>, cohort: FrozenCohort, cooldownEnd: int,
      tp: TransitPredicate)
  {
    OneForEach(lcs, ts, cohort) && All(lcs, Records(ts, cohort, cooldownEnd, tp))
  }

  // ---- The builder ----

  method GroupTransitions(ts: seq<RouteTransition>) returns (groups: map<StreamKey, seq<RouteTransition>>)
    ensures forall s :: TransitionsOf(ts, s) == if s in groups then groups[s] else []
    ensures forall s :: s in groups ==> groups[s] != []
  {
    groups := map[];
    for i := 0 to |ts|
      invariant forall s :: TransitionsOf(ts[..i], s) == if s in groups then groups[s] else []
      invariant forall s :: s in groups ==> groups[s] != []
    {
      var t := ts[i];
      assert ts[..i + 1] == ts[..i] + [t];
      forall s
        ensures TransitionsOf(ts[..i + 1], s) == TransitionsOf(ts[..i], s) + (if t.key.stream == s then [t] else []) {
        FilterSnoc(ts[..i], t, InStream(s));
      }
      groups := groups[t.key.stream := (if t.key.stream in groups then groups[t.key.stream] else []) + [t]];
    }
    assert ts[..|ts|] == ts;
  }

  lemma SortedStaysInStream(ts: seq<RouteTransition>, stream: StreamKey)
    ensures forall i :: 0 <= i < |SortBy(TransitionsOf(ts, stream), Chronological)| ==>
      SortBy(TransitionsOf(ts, stream), Chronological)[i].key.stream == stream
  {
    var mine := TransitionsOf(ts, stream);
    var sorted := SortBy(mine, Chronological);
    SortPermutes(mine, Chronological);
    forall i | 0 <= i < |sorted| ensures sorted[i].key.stream == stream {
      assert sorted[i] in multiset(sorted);
      assert sorted[i] in mine;
      FilterMember(ts, InStream(stream), sorted[i]);
    }
  }

  /** Records for the streams settled so far, each stream once. */
  ghost predicate Settled(lcs: seq<StreamLifecycle>, done: set<StreamKey>, good: StreamLifecycle -> bool) {
    multiset(Map(lcs, StreamOf)) == multiset(done) && All(lcs, good)
  }

  lemma OneMore<T>(xs: set<T>, x: T)
    requires x !in xs
    ensures multiset(xs + {x}) == multiset(xs) + multiset{x}
  {
    forall y ensures multiset(xs + {x})[y] == (multiset(xs) + multiset{x})[y] { }
  }

  lemma DoneGrows<T>(all: set<T>, todo: set<T>, x: T)
    requires todo <= all && x in todo
    ensures all - todo + {x} == all - (todo - {x})
  {
  }

  lemma SettledSnoc(lcs: seq<StreamLifecycle>, lc: StreamLifecycle, done: set<StreamKey>, good: StreamLifecycle -> bool)
    requires Settled(lcs, done, good) && lc.stream !in done && good(lc)
    ensures Settled(lcs + [lc], done + {lc.stream}, good)
  {
    MapSnoc(lcs, lc, StreamOf);
    OneMore(done, lc.stream);
  }

  method BuildRecord(
      stream: StreamKey, group: seq<RouteTransition>, ghost ts: seq<RouteTransition>, cohort: FrozenCohort,
      cooldownEnd: int, tp: TransitPredicate)
    returns (lc: StreamLifecycle)
    requires OwnBaselines(cohort) && group == TransitionsOf(ts, stream)
    ensures lc.stream == stream && Records(ts, cohort, cooldownEnd, tp)(lc)
  {
    SortedStaysInStream(ts, stream);
    lc := BuildOneLifecycle(stream, BaselineOf(cohort, stream), SortBy(group, Chronological), cooldownEnd, tp);
  }

  method BuildLifecycles(ts: seq<RouteTransition>, cohort: FrozenCohort, cooldownEnd: int, tp: TransitPredicate)
    returns (lcs: seq<StreamLifecycle>)
    requires OwnBaselines(cohort)
    ensures AreLifecycles(lcs, ts, cohort, cooldownEnd, tp)
  {
    var groups := GroupTransitions(ts);
    var records := BuildRecords(groups, ts, cohort, cooldownEnd, tp);
    lcs := SortBy(records, NotAfter);
    SortedRecords(records, cohort.streams + groups.Keys, ts, cohort, Records(ts, cohort, cooldownEnd, tp));
  }

  /** One record per stream, in whatever order the hash sets are walked. */
  method BuildRecords(
      groups: map<StreamKey, seq<RouteTransition>>, ghost ts: seq<RouteTransition>, cohort: FrozenCohort,
      cooldownEnd: int, tp: TransitPredicate)
    returns (records: seq<StreamLifecycle>)
    requires OwnBaselines(cohort)
    requires forall s :: TransitionsOf(ts, s) == if s in groups then groups[s] else []
    ensures Settled(records, cohort.streams + groups.Keys, Records(ts, cohort, cooldownEnd, tp))
  {
    records := [];
    var todo := cohort.streams + groups.Keys;
    ghost var all, good := todo, Records(ts, cohort, cooldownEnd, tp);
    // Cohort streams first, then the streams that only have transitions.
    while todo != {}
      invariant todo <= all
      invariant Settled(records, all - todo, good)
    {
      var stream: StreamKey;
      if todo * cohort.streams != {} {
        stream :| stream in todo * cohort.streams;
      } else {
        stream :| stream in todo;
      }
      var lc := BuildRecord(stream, if stream in groups then groups[stream] else [], ts, cohort, cooldownEnd, tp);
      SettledSnoc(records, lc, all - todo, good);
      DoneGrows(all, todo, stream);
      records := records + [lc];
      todo := todo - {stream};
    }
    assert all - {} == all;
  }

  lemma {:induction false} StreamsPermute(records: seq<StreamLifecycle>)
    ensures multiset(Map(SortBy(records, NotAfter), StreamOf)) == multiset(Map(records, StreamOf))
  {
    SortPermutes(records, NotAfter);
    MapPermutes(SortBy(records, NotAfter), records, StreamOf);
  }

  lemma NeverTwice(lcs: seq<StreamLifecycle>, all: set<StreamKey>, i: nat, j: nat)
    requires multiset(Map(lcs, StreamOf)) == multiset(all) && i < j < |lcs|
    ensures lcs[i].stream != lcs[j].stream
  {
    var streams := Map(lcs, StreamOf);
    assert streams[i] == StreamOf(lcs[i]) && streams[j] == StreamOf(lcs[j]);
    if streams[i] == streams[j] {
      CountedTwice(streams, i, j);
    }
  }

  lemma StreamsInOrder(lcs: seq<StreamLifecycle>, all: set<StreamKey>)
    requires Sorted(lcs, NotAfter) && multiset(Map(lcs, StreamOf)) == multiset(all)
    ensures Sorted(Map(lcs, StreamOf), Before)
  {
    StreamOrderLawful();
    var streams := Map(lcs, StreamOf);
    forall i, j | 0 <= i < j < |streams| ensures Before(streams[i], streams[j]) {
      assert streams[i] == StreamOf(lcs[i]) && streams[j] == StreamOf(lcs[j]);
      NeverTwice(lcs, all, i, j);
      assert NotAfter(lcs[i], lcs[j]);
    }
  }

  lemma {:induction false} SortedStayGood(records: seq<StreamLifecycle>, good: StreamLifecycle -> bool)
    requires All(records, good)
    ensures All(SortBy(records, NotAfter), good)
  {
    var lcs := SortBy(records, NotAfter);
    SortPermutes(records, NotAfter);
    SameItems(lcs, records);
    forall i | 0 <= i < |lcs| ensures good(lcs[i]) {
      assert lcs[i] in lcs;
    }
  }

  /** Sorting records of distinct streams puts them in strict order. */
  lemma {:induction false} SortedRecords(
      records: seq<StreamLifecycle>, all: set<StreamKey>, ts: seq<RouteTransition>, cohort: FrozenCohort,
      good: StreamLifecycle -> bool)
    requires Settled(records, all, good)
    requires forall s :: s in all <==> Appears(ts, cohort, s)
    ensures OneForEach(SortBy(records, NotAfter), ts, cohort) && All(SortBy(records, NotAfter), good)
  {
    var lcs := SortBy(records, NotAfter);
    RecordOrderIsTotal();
    SortSorts(records, NotAfter);
    StreamsPermute(records);
    StreamsInOrder(lcs, all);
    SortedStayGood(records, good);
    forall s ensures s in Map(lcs, StreamOf) <==> Appears(ts, cohort, s) {
      assert s in Map(lcs, StreamOf) <==> s in multiset(Map(lcs, StreamOf));
    }
  }

  // ---- Determinism ----

  lemma FirstUnique(k: RouteKey, l: RouteKey, stream: StreamKey, baseline: Instances)
    requires IsFirst(k, baseline) && IsFirst(l, baseline) && k.stream == stream == l.stream
    ensures k == l
  {
    assert PathIdAtMost(k.pathId, l.pathId) && PathIdAtMost(l.pathId, k.pathId);
  }

  lemma BaselinePathUnique(p: seq<U32>, q: seq<U32>, stream: StreamKey, baseline: Instances)
    requires forall k :: k in baseline ==> k.stream == stream
    requires IsBaselinePath(p, baseline) && IsBaselinePath(q, baseline)
    ensures p == q
  {
    if baseline != map[] {
      var k :| IsFirst(k, baseline) && p == baseline[k].attributes.asPath;
      var l :| IsFirst(l, baseline) && q == baseline[l].attributes.asPath;
      FirstUnique(k, l, stream, baseline);
    }
  }

  /** The end state of the simulation leaves no freedom in the record. */
  lemma ConclusionUnique(
      a: StreamLifecycle, b: StreamLifecycle, stream: StreamKey, baseline: Instances, s: Sim, ambiguous: bool,
      cooldownEnd: int, tp: TransitPredicate)
    requires forall k :: k in baseline ==> k.stream == stream
    requires Concludes(a, stream, baseline, s, ambiguous, cooldownEnd, tp)
      && Concludes(b, stream, baseline, s, ambiguous, cooldownEnd, tp)
    ensures a == b
  {
    BaselinePathUnique(a.baselinePath, b.baselinePath, stream, baseline);
  }

  /** A record depends on its own stream's baseline and transitions alone. */
  lemma RecordUnique(
      a: StreamLifecycle, b: StreamLifecycle, ts: seq<RouteTransition>, us: seq<RouteTransition>,
      cohort: FrozenCohort, other: FrozenCohort, cooldownEnd: int, tp: TransitPredicate)
    requires OwnBaselines(cohort) && a.stream == b.stream
    requires TransitionsOf(ts, a.stream) == TransitionsOf(us, a.stream)
    requires BaselineOf(cohort, a.stream) == BaselineOf(other, a.stream)
    requires IsRecord(a, ts, cohort, cooldownEnd, tp) && IsRecord(b, us, other, cooldownEnd, tp)
    ensures a == b
  {
    var baseline, mine := BaselineOf(cohort, a.stream), SortBy(TransitionsOf(ts, a.stream), Chronological);
    ConclusionUnique(a, b, a.stream, baseline, Simulate(baseline, mine, tp), Ambiguous(baseline, mine), cooldownEnd,
      tp);
  }

  /** Records of the same streams, in the same order, agree if any two of one stream do. */
  lemma SameRecords(
      lcs: seq<StreamLifecycle>, lcs': seq<StreamLifecycle>,
      good: StreamLifecycle -> bool, good': StreamLifecycle -> bool)
    requires Sorted(Map(lcs, StreamOf), Before) && Sorted(Map(lcs', StreamOf), Before)
    requires forall s :: s in Map(lcs, StreamOf) <==> s in Map(lcs', StreamOf)
    requires All(lcs, good) && All(lcs', good')
    requires forall a, b :: good(a) && good'(b) && a.stream == b.stream ==> a == b
    ensures lcs == lcs'
  {
    BeforeIsStrict();
    StrictlySortedUnique(Map(lcs, StreamOf), Map(lcs', StreamOf), Before);
    assert |lcs| == |Map(lcs, StreamOf)| == |lcs'|;
    forall i | 0 <= i < |lcs| ensures lcs[i] == lcs'[i] {
      assert Map(lcs, StreamOf)[i] == StreamOf(lcs[i]) && Map(lcs', StreamOf)[i] == StreamOf(lcs'[i]);
      assert lcs[i].stream == lcs'[i].stream && good(lcs[i]) && good'(lcs'[i]);
    }
  }

  /**
   * The result depends on the cohort and, stream by stream, on that stream's own
   * transitions: any interleaving of the streams, and any order in which the
   * hash maps are walked, gives the same records in the same order.
   */
  lemma ResultDependsPerStream(
      lcs: seq<StreamLifecycle>, ts: seq<RouteTransition>, lcs': seq<StreamLifecycle>, us: seq<RouteTransition>,
      cohort: FrozenCohort, cooldownEnd: int, tp: TransitPredicate)
    requires OwnBaselines(cohort)
    requires AreLifecycles(lcs, ts, cohort, cooldownEnd, tp) && AreLifecycles(lcs', us, cohort, cooldownEnd, tp)
    requires forall s :: TransitionsOf(ts, s) == TransitionsOf(us, s)
    ensures lcs == lcs'
  {
    var good, good' := Records(ts, cohort, cooldownEnd, tp), Records(us, cohort, cooldownEnd, tp);
    forall a, b | good(a) && good'(b) && a.stream == b.stream ensures a == b {
      RecordUnique(a, b, ts, us, cohort, cohort, cooldownEnd, tp);
    }
    forall s ensures s in Map(lcs, StreamOf) <==> s in Map(lcs', StreamOf) {
      assert Appears(ts, cohort, s) <==> Appears(us, cohort, s);
    }
    SameRecords(lcs, lcs', good, good');
  }

  /** Some transition belongs to the stream. */
  ghost predicate Mentioned(ts: seq<RouteTransition>, s: StreamKey) {
    exists i :: 0 <= i < |ts| && ts[i].key.stream == s
  }

  ghost predicate HasRecord(lcs: seq<StreamLifecycle>, s: StreamKey) {
    exists i :: 0 <= i < |lcs| && lcs[i].stream == s
  }

  lemma AppearsMeaning(ts: seq<RouteTransition>, cohort: FrozenCohort, s: StreamKey)
    ensures Appears(ts, cohort, s) <==> s in cohort.streams || Mentioned(ts, s)
  {
    if TransitionsOf(ts, s) != [] {
      var t := TransitionsOf(ts, s)[0];
      FilterMember(ts, InStream(s), t);
      var i :| 0 <= i < |ts| && ts[i] == t;
      assert ts[i].key.stream == s;
    }
    if i :| 0 <= i < |ts| && ts[i].key.stream == s {
      FilterMember(ts, InStream(s), ts[i]);
    }
  }

  /** Who has a record, and where it is listed. */
  lemma LifecyclesListed(
      lcs: seq<StreamLifecycle>, ts: seq<RouteTransition>, cohort: FrozenCohort, cooldownEnd: int,
      tp: TransitPredicate)
    requires AreLifecycles(lcs, ts, cohort, cooldownEnd, tp)
    ensures forall s :: HasRecord(lcs, s) <==> s in cohort.streams || Mentioned(ts, s)
    ensures forall i, j :: 0 <= i < j < |lcs| ==> ListedBefore(lcs[i].stream, lcs[j].stream)
  {
    var streams := Map(lcs, StreamOf);
    assert forall i :: 0 <= i < |lcs| ==> streams[i] == lcs[i].stream;
    forall s ensures HasRecord(lcs, s) <==> s in cohort.streams || Mentioned(ts, s) {
      AppearsMeaning(ts, cohort, s);
      assert s in streams <==> HasRecord(lcs, s) by {
        if s in streams {
          var i :| 0 <= i < |streams| && streams[i] == s;
          assert lcs[i].stream == s;
        }
        if i :| 0 <= i < |lcs| && lcs[i].stream == s { assert streams[i] in streams; }
      }
    }
    forall i, j | 0 <= i < j < |lcs| ensures ListedBefore(lcs[i].stream, lcs[j].stream) {
      assert Before(streams[i], streams[j]);
      StreamOrderMeaning(lcs[i].stream, lcs[j].stream);
    }
  }

  // ---- Conservation ----

  /** All lists of all records, one after the other. */
  function Listed(lcs: seq<StreamLifecycle>): seq<LifecycleTransition> {
    if lcs == [] then [] else lcs[0].transitions + lcs[0].cooldownTransitions + Listed(lcs[1..])
  }

  /** The transitions of each stream in turn. */
  function Gathered(ts: seq<RouteTransition>, streams: seq<StreamKey>): seq<RouteTransition> {
    if streams == [] then [] else TransitionsOf(ts, streams[0]) + Gathered(ts, streams[1..])
  }

  function Single<T>(x: T, on: bool): multiset<T> { if on then multiset{x} else multiset{} }

  lemma HeadOnce(streams: seq<StreamKey>)
    requires streams != [] && Sorted(streams, Before)
    ensures streams[0] !in streams[1..] && Sorted(streams[1..], Before)
    ensures forall s :: s in streams <==> s == streams[0] || s in streams[1..]
  {
    BeforeIsStrict();
    HeadNotInTail(streams, Before);
  }

  lemma {:induction false} GatheredSnoc(ts: seq<RouteTransition>, t: RouteTransition, streams: seq<StreamKey>)
    requires Sorted(streams, Before)
    ensures multiset(Gathered(ts + [t], streams)) == multiset(Gathered(ts, streams))
      + Single(t, t.key.stream in streams)
  {
    if streams != [] {
      var rest := streams[1..];
      HeadOnce(streams);
      FilterSnoc(ts, t, InStream(streams[0]));
      GatheredSnoc(ts, t, rest);
      assert multiset(Gathered(ts + [t], streams))
        == multiset(TransitionsOf(ts + [t], streams[0])) + multiset(Gathered(ts + [t], rest));
    }
  }

  lemma {:induction false} AllGathered(ts: seq<RouteTransition>, streams: seq<StreamKey>)
    requires Sorted(streams, Before) && forall i :: 0 <= i < |ts| ==> ts[i].key.stream in streams
    ensures multiset(Gathered(ts, streams)) == multiset(ts)
  {
    if ts == [] {
      NothingGathered(streams);
    } else {
      var init, t := ts[..|ts| - 1], ts[|ts| - 1];
      forall i | 0 <= i < |init| ensures init[i].key.stream in streams { assert init[i] == ts[i]; }
      AllGathered(init, streams);
      assert ts == init + [t];
      GatheredSnoc(init, t, streams);
    }
  }

  lemma {:induction false} NothingGathered(streams: seq<StreamKey>)
    ensures Gathered([], streams) == []
  {
    if streams != [] { NothingGathered(streams[1..]); }
  }

  /** A record lists its own stream's transitions, in the order of the simulation. */
  lemma RecordLists(
      lc: StreamLifecycle, ts: seq<RouteTransition>, cohort: FrozenCohort, cooldownEnd: int, tp: TransitPredicate)
    requires IsRecord(lc, ts, cohort, cooldownEnd, tp)
    ensures
      var mine := SortBy(TransitionsOf(ts, lc.stream), Chronological);
      && lc.transitions == Map(Filter(mine, BeforeCooldown), Describe(tp))
      && lc.cooldownTransitions == Map(Filter(mine, InCooldown), Describe(tp))
      && |lc.transitions| + |lc.cooldownTransitions| == |TransitionsOf(ts, lc.stream)|
  {
    var mine := SortBy(TransitionsOf(ts, lc.stream), Chronological);
    ConclusionLists(lc, BaselineOf(cohort, lc.stream), Simulate(BaselineOf(cohort, lc.stream), mine, tp),
      Ambiguous(BaselineOf(cohort, lc.stream), mine), cooldownEnd, tp);
    ListsPartitionTransitions(BaselineOf(cohort, lc.stream), mine, tp);
    SortPermutes(TransitionsOf(ts, lc.stream), Chronological);
  }

  lemma ConclusionLists(
      lc: StreamLifecycle, baseline: Instances, s: Sim, ambiguous: bool, cooldownEnd: int, tp: TransitPredicate)
    requires Concludes(lc, lc.stream, baseline, s, ambiguous, cooldownEnd, tp)
    ensures lc.transitions == s.tally.main && lc.cooldownTransitions == s.tally.cooldown
    ensures lc.flags == FlagsOf(s, ambiguous, tp)
    ensures lc.category == CategoryOf(s)
  {
  }

  ghost predicate ListsItsOwn(
      lc: StreamLifecycle, ts: seq<RouteTransition>, describe: RouteTransition -> LifecycleTransition)
  {
    multiset(lc.transitions + lc.cooldownTransitions) == multiset(Map(TransitionsOf(ts, lc.stream), describe))
  }

  lemma MapConcat<T, U>(xs: seq<T>, ys: seq<T>, f: T -> U)
    ensures Map(xs + ys, f) == Map(xs, f) + Map(ys, f)
  {
  }

  lemma {:induction false} ListedAreGathered(
      lcs: seq<StreamLifecycle>, ts: seq<RouteTransition>, describe: RouteTransition -> LifecycleTransition,
      good: StreamLifecycle -> bool)
    requires All(lcs, good)
    requires forall lc :: good(lc) ==> ListsItsOwn(lc, ts, describe)
    ensures multiset(Listed(lcs)) == multiset(Map(Gathered(ts, Map(lcs, StreamOf)), describe))
  {
    if lcs != [] {
      assert good(lcs[0]);
      var streams := Map(lcs, StreamOf);
      ListedAreGathered(lcs[1..], ts, describe, good);
      assert streams[1..] == Map(lcs[1..], StreamOf) && streams[0] == lcs[0].stream;
      MapConcat(TransitionsOf(ts, streams[0]), Gathered(ts, streams[1..]), describe);
    }
  }

  lemma RecordListsItsOwn(
      lc: StreamLifecycle, ts: seq<RouteTransition>, cohort: FrozenCohort, cooldownEnd: int, tp: TransitPredicate)
    requires Records(ts, cohort, cooldownEnd, tp)(lc)
    ensures ListsItsOwn(lc, ts, Describe(tp))
  {
    RecordLists(lc, ts, cohort, cooldownEnd, tp);
    var own := TransitionsOf(ts, lc.stream);
    SplitListsAll(own, SortBy(own, Chronological), Describe(tp));
  }

  lemma {:induction false} SplitListsAll(
      own: seq<RouteTransition>, mine: seq<RouteTransition>, describe: RouteTransition -> LifecycleTransition)
    requires mine == SortBy(own, Chronological)
    ensures multiset(Map(Filter(mine, BeforeCooldown), describe) + Map(Filter(mine, InCooldown), describe))
      == multiset(Map(own, describe))
  {
    var main, cooldown := Filter(mine, BeforeCooldown), Filter(mine, InCooldown);
    FiltersPartition(mine);
    SortPermutes(own, Chronological);
    MapPermutes(main + cooldown, own, describe);
    MapConcat(main, cooldown, describe);
  }

  /** Nothing is lost, added or listed twice: the lists of all records together are the descriptions of the input. */
  lemma {:induction false} EveryTransitionIsListedOnce(
      lcs: seq<StreamLifecycle>, ts: seq<RouteTransition>, cohort: FrozenCohort, cooldownEnd: int,
      tp: TransitPredicate)
    requires AreLifecycles(lcs, ts, cohort, cooldownEnd, tp)
    ensures multiset(Listed(lcs)) == multiset(Map(ts, Describe(tp)))
  {
    var good, streams := Records(ts, cohort, cooldownEnd, tp), Map(lcs, StreamOf);
    forall lc | good(lc) ensures ListsItsOwn(lc, ts, Describe(tp)) {
      RecordListsItsOwn(lc, ts, cohort, cooldownEnd, tp);
    }
    ListedAreGathered(lcs, ts, Describe(tp), good);
    EveryStreamAppears(lcs, ts, cohort);
    AllGathered(ts, streams);
    MapPermutes(Gathered(ts, streams), ts, Describe(tp));
  }

  lemma EveryStreamAppears(lcs: seq<StreamLifecycle>, ts: seq<RouteTransition>, cohort: FrozenCohort)
    requires OneForEach(lcs, ts, cohort)
    ensures forall i :: 0 <= i < |ts| ==> ts[i].key.stream in Map(lcs, StreamOf)
  {
    forall i | 0 <= i < |ts| ensures ts[i].key.stream in Map(lcs, StreamOf) {
      var s := ts[i].key.stream;
      FilterMember(ts, InStream(s), ts[i]);
      assert Appears(ts, cohort, s);
    }
  }

  // ---- From the RIB to the flags ----

  /**
   * An admitted stream whose RIB entries have distinct route keys: its record counts as
   * not restored exactly when nothing active matches at the end, and as restored exactly
   * when something does and the stream was withdrawn.
   */
  lemma AdmittedRecordFlags(
      rib: seq<RouteObservation>, targets: seq<U32>, cohort: FrozenCohort,
      lc: StreamLifecycle, ts: seq<RouteTransition>, cooldownEnd: int, tp: TransitPredicate)
    requires IsFrozen(cohort, rib, targets, tp) && lc.stream in cohort.streams
    requires forall i, j :: 0 <= i < j < |Entries(rib, lc.stream, targets)| ==>
      Entries(rib, lc.stream, targets)[i].Key() != Entries(rib, lc.stream, targets)[j].Key()
    requires IsRecord(lc, ts, cohort, cooldownEnd, tp)
    ensures
      var active := ActiveAfter(BaselineOf(cohort, lc.stream), SortBy(TransitionsOf(ts, lc.stream), Chronological));
      && (lc.flags.notRestored <==> !AnyMatching(active, tp))
      && (lc.flags.restored <==> lc.category.Withdrawn? && AnyMatching(active, tp))
  {
    AdmissionMeansMatching(cohort, rib, targets, tp, lc.stream);
    var baseline, mine := BaselineOf(cohort, lc.stream), SortBy(TransitionsOf(ts, lc.stream), Chronological);
    AdmittedNotRestored(baseline, mine, tp);
    RestoredMeaning(baseline, mine, tp);
    ConclusionLists(lc, baseline, Simulate(baseline, mine, tp), Ambiguous(baseline, mine), cooldownEnd, tp);
  }
}
