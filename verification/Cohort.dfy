/** RIB observations and the frozen cohort: which streams are admitted, with which baseline instances. */
module Observations {
  import opened Prelude
  import opened Routes
  import opened Lifecycle

  datatype ObservationKind = RibEntry | AnnouncementSeen | WithdrawalSeen | SessionBoundary

  datatype RouteObservation = RouteObservation(
    id: nat,
    timestamp: int,
    collector: string,
    peerIp: string,
    prefix: string,
    kind: ObservationKind,
    attributes: Option<RouteAttributes>,
    pathId: Option<U32>,
    archiveOrder: nat,
    elementSeq: nat)
  {
    function Stream(): StreamKey { StreamKey(collector, peerIp, prefix) }

    function Key(): RouteKey { RouteKey(Stream(), pathId) }
  }
}

module Cohort {
  import opened Prelude
  import opened Seqs
  import opened Routes
  import opened Lifecycle
  import opened Observations

  datatype FrozenCohort = FrozenCohort(streams: set<StreamKey>, baselines: map<StreamKey, Instances>)

  /** A RIB entry with attributes whose first origin (0 if there is none) is a target. */
  predicate Eligible(o: RouteObservation, targets: seq<U32>) {
    && o.kind.RibEntry? && o.attributes.Some?
    && (if o.attributes.value.originAsns == [] then 0 else o.attributes.value.originAsns[0]) in targets
  }

  predicate Matches(o: RouteObservation, tp: TransitPredicate) {
    o.attributes.Some? && tp.Evaluate(o.attributes.value.asPath)
  }

  function OfStream(stream: StreamKey, targets: seq<U32>): RouteObservation -> bool {
    (o: RouteObservation) => Eligible(o, targets) && o.Stream() == stream
  }

  /** A stream's eligible entries, in input order. */
  function Entries(rib: seq<RouteObservation>, stream: StreamKey, targets: seq<U32>): seq<RouteObservation> {
    Filter(rib, OfStream(stream, targets))
  }

  function StateOf(o: RouteObservation): RouteState {
    RouteState(if o.attributes.Some? then o.attributes.value else NO_ATTRIBUTES, o.timestamp)
  }

  /** Later entries overwrite earlier ones with the same route key. */
  function InstanceMap(entries: seq<RouteObservation>): Instances {
    if entries == [] then map[]
    else
      var o := entries[|entries| - 1];
      InstanceMap(entries[..|entries| - 1])[o.Key() := StateOf(o)]
  }

  lemma EntriesEligible(rib: seq<RouteObservation>, stream: StreamKey, targets: seq<U32>)
    ensures forall i :: 0 <= i < |Entries(rib, stream, targets)| ==>
      var o := Entries(rib, stream, targets)[i];
      Eligible(o, targets) && o.Stream() == stream && o in rib
  {
    forall i | 0 <= i < |Entries(rib, stream, targets)| {
      FilterMember(rib, OfStream(stream, targets), Entries(rib, stream, targets)[i]);
    }
  }

  predicate SomeMatch(entries: seq<RouteObservation>, tp: TransitPredicate) {
    exists i :: 0 <= i < |entries| && Matches(entries[i], tp)
  }

  predicate Admitted(rib: seq<RouteObservation>, stream: StreamKey, targets: seq<U32>, tp: TransitPredicate) {
    SomeMatch(Entries(rib, stream, targets), tp)
  }

  /** The cohort is settled for every stream outside `todo`. */
  ghost predicate IsFrozenBut(
      c: FrozenCohort, rib: seq<RouteObservation>, targets: seq<U32>, tp: TransitPredicate, todo: set<StreamKey>)
  {
    && (forall k :: k in c.streams <==> k !in todo && Admitted(rib, k, targets, tp))
    && c.baselines.Keys == c.streams
    && forall k :: k in c.streams ==> c.baselines[k] == InstanceMap(Entries(rib, k, targets))
  }

  /** Streams are admitted if some eligible entry matches; an admitted stream keeps all its instances. */
  ghost predicate IsFrozen(c: FrozenCohort, rib: seq<RouteObservation>, targets: seq<U32>, tp: TransitPredicate) {
    IsFrozenBut(c, rib, targets, tp, {})
  }

  /** The eligible entries, grouped by stream in input order. */
  method GroupByStream(rib: seq<RouteObservation>, targets: seq<U32>)
    returns (all: map<StreamKey, seq<RouteObservation>>)
    ensures forall k :: Entries(rib, k, targets) == if k in all then all[k] else []
  {
    all := map[];
    for i := 0 to |rib|
      invariant forall k :: Entries(rib[..i], k, targets) == if k in all then all[k] else []
    {
      var o := rib[i];
      assert rib[..i + 1] == rib[..i] + [o];
      forall k
        ensures Entries(rib[..i + 1], k, targets) == Entries(rib[..i], k, targets)
        + (if Eligible(o, targets) && o.Stream() == k then [o] else []) {
        FilterSnoc(rib[..i], o, OfStream(k, targets));
      }
      if Eligible(o, targets) {
        var stream := o.Stream();
        all := all[stream := (if stream in all then all[stream] else []) + [o]];
      }
    }
    assert rib[..|rib|] == rib;
  }

  method CollectInstances(entries: seq<RouteObservation>) returns (instances: Instances)
    ensures instances == InstanceMap(entries)
  {
    instances := map[];
    for i := 0 to |entries|
      invariant instances == InstanceMap(entries[..i])
    {
      assert entries[..i + 1][..i] == entries[..i];
      instances := instances[entries[i].Key() := StateOf(entries[i])];
    }
    assert entries[..|entries|] == entries;
  }

  /** Group the eligible entries by stream, then admit the groups with a match. */
  method FreezeCohort(rib: seq<RouteObservation>, targets: seq<U32>, tp: TransitPredicate)
    returns (cohort: FrozenCohort)
    ensures IsFrozen(cohort, rib, targets, tp)
  {
    var all := GroupByStream(rib, targets);
    cohort := FrozenCohort({}, map[]);
    var todo := all.Keys;
    while todo != {}
      invariant todo <= all.Keys
      invariant IsFrozenBut(cohort, rib, targets, tp, todo)
    {
      var stream :| stream in todo;
      SettleOne(cohort, rib, targets, tp, todo, stream);
      if SomeMatch(all[stream], tp) {
        var instances := CollectInstances(all[stream]);
        cohort := WithStream(cohort, stream, instances);
      }
      todo := todo - {stream};
    }
  }

  function WithStream(c: FrozenCohort, stream: StreamKey, instances: Instances): FrozenCohort {
    FrozenCohort(c.streams + {stream}, c.baselines[stream := instances])
  }

  lemma SettleOne(
      c: FrozenCohort, rib: seq<RouteObservation>, targets: seq<U32>, tp: TransitPredicate, todo: set<StreamKey>,
      stream: StreamKey)
    requires IsFrozenBut(c, rib, targets, tp, todo) && stream in todo
    ensures
      var entries := Entries(rib, stream, targets);
      IsFrozenBut(if SomeMatch(entries, tp) then WithStream(c, stream, InstanceMap(entries))
        else c, rib, targets, tp, todo - {stream})
  {
  }

  // ---- Does admission guarantee a matching baseline? ----

  /** No later entry carries the same route key. */
  predicate Survives(entries: seq<RouteObservation>, i: int) {
    0 <= i < |entries| && forall j :: i < j < |entries| ==> entries[j].Key() != entries[i].Key()
  }

  lemma {:induction false} SurvivorIsStored(entries: seq<RouteObservation>, i: nat)
    requires Survives(entries, i)
    ensures entries[i].Key() in InstanceMap(entries) && InstanceMap(entries)[entries[i].Key()] == StateOf(entries[i])
  {
    var init, n := entries[..|entries| - 1], |entries| - 1;
    if i < n {
      assert entries[n].Key() != entries[i].Key();
      SurvivorIsStored(init, i);
    }
  }

  lemma {:induction false} StoredSurvives(entries: seq<RouteObservation>, k: RouteKey) returns (i: nat)
    requires k in InstanceMap(entries)
    ensures Survives(entries, i) && entries[i].Key() == k
  {
    var init, n := entries[..|entries| - 1], |entries| - 1;
    if k == entries[n].Key() {
      i := n;
    } else {
      i := StoredSurvives(init, k);
    }
  }

  /**
   * For every input: the frozen baseline contains a matching route exactly when
   * some matching entry is not overwritten by a later one for the same route key.
   */
  lemma BaselineMatchesExactly(rib: seq<RouteObservation>, stream: StreamKey, targets: seq<U32>, tp: TransitPredicate)
    ensures AnyMatching(InstanceMap(Entries(rib, stream, targets)), tp) <==>
      exists i :: Survives(Entries(rib, stream, targets), i) && Matches(Entries(rib, stream, targets)[i], tp)
  {
    EntriesEligible(rib, stream, targets);
    var entries := Entries(rib, stream, targets);
    var m := InstanceMap(entries);
    if AnyMatching(m, tp) {
      var k :| k in m && Via(tp, m[k]);
      var i := StoredSurvives(entries, k);
      SurvivorIsStored(entries, i);
      assert Matches(entries[i], tp);
    }
    if i :| Survives(entries, i) && Matches(entries[i], tp) {
      SurvivorIsStored(entries, i);
      assert Via(tp, m[entries[i].Key()]);
    }
  }

  /** RIB entries with distinct route keys: every admitted stream starts on transit. */
  lemma AdmissionMeansMatching(
      c: FrozenCohort, rib: seq<RouteObservation>, targets: seq<U32>, tp: TransitPredicate, stream: StreamKey)
    requires IsFrozen(c, rib, targets, tp) && stream in c.streams
    requires forall i, j :: 0 <= i < j < |Entries(rib, stream, targets)| ==>
      Entries(rib, stream, targets)[i].Key() != Entries(rib, stream, targets)[j].Key()
    ensures AnyMatching(c.baselines[stream], tp)
  {
    var entries := Entries(rib, stream, targets);
    var i :| 0 <= i < |entries| && Matches(entries[i], tp);
    assert Survives(entries, i);
    BaselineMatchesExactly(rib, stream, targets, tp);
  }

  /** With a repeated route key an admitted stream can start off transit. */
  lemma OverwrittenMatch() returns (rib: seq<RouteObservation>, tp: TransitPredicate, stream: StreamKey)
    ensures Admitted(rib, stream, [9], tp) && !AnyMatching(InstanceMap(Entries(rib, stream, [9])), tp)
  {
    stream, tp := StreamKey("c", "p", "x"), ContainsAny([7]);
    var via := RouteAttributes([7, 9], [9], None, None, None, None, false, []);
    var off := RouteAttributes([8, 9], [9], None, None, None, None, false, []);
    var first := RouteObservation(0, 0, "c", "p", "x", RibEntry, Some(via), None, 0, 0);
    var second := RouteObservation(1, 0, "c", "p", "x", RibEntry, Some(off), None, 0, 1);
    rib := [first, second];
    var p := OfStream(stream, [9]);
    assert Entries(rib, stream, [9]) == rib by {
      assert p(first) && p(second);
      FilterSnoc([first], second, p);
      FilterSnoc([], first, p);
      assert [] + [first] == [first] && [first] + [second] == rib;
    }
    assert Matches(rib[0], tp) by { assert via.asPath[0] == 7 && tp.asns[0] == 7; }
    assert !Matches(second, tp);
    assert !Survives(rib, 0) by { assert rib[1].Key() == rib[0].Key(); }
    BaselineMatchesExactly(rib, stream, [9], tp);
  }

  // ---- Which entries count ----

  /** The entry names a route of the stream whose first origin, or 0 without origins, is a target. */
  ghost predicate Shows(o: RouteObservation, stream: StreamKey, targets: seq<U32>) {
    && o.kind == RibEntry && o.collector == stream.collector && o.peerIp == stream.peerIp && o.prefix == stream.prefix
    && match o.attributes
       case None => false
       case Some(a) => (a.originAsns == [] && 0 in targets) || (a.originAsns != [] && a.originAsns[0] in targets)
  }

  lemma EntriesMeaning(rib: seq<RouteObservation>, stream: StreamKey, targets: seq<U32>, o: RouteObservation)
    ensures o in Entries(rib, stream, targets) <==> o in rib && Shows(o, stream, targets)
  {
    FilterMember(rib, OfStream(stream, targets), o);
  }

  /** Admitted are the streams of which some such entry of the RIB has a matching path. */
  lemma AdmissionExactly(
      c: FrozenCohort, rib: seq<RouteObservation>, targets: seq<U32>, tp: TransitPredicate, stream: StreamKey)
    requires IsFrozen(c, rib, targets, tp)
    ensures stream in c.streams <==>
      exists o :: o in rib && Shows(o, stream, targets) && tp.Evaluate(o.attributes.value.asPath)
  {
    var entries := Entries(rib, stream, targets);
    if stream in c.streams {
      var i :| 0 <= i < |entries| && Matches(entries[i], tp);
      assert entries[i] in entries;
      EntriesMeaning(rib, stream, targets, entries[i]);
    }
    if o :| o in rib && Shows(o, stream, targets) && tp.Evaluate(o.attributes.value.asPath) {
      EntriesMeaning(rib, stream, targets, o);
      var i :| 0 <= i < |entries| && entries[i] == o;
      assert Matches(entries[i], tp);
    }
  }

  /** The last such entry of a route key, in the order of the RIB. */
  ghost predicate LastShown(
      rib: seq<RouteObservation>, stream: StreamKey, targets: seq<U32>, pathId: Option<U32>, i: int)
  {
    && 0 <= i < |rib| && Shows(rib[i], stream, targets) && rib[i].pathId == pathId
    && forall j :: i < j < |rib| && Shows(rib[j], stream, targets) ==> rib[j].pathId != pathId
  }

  lemma {:induction false} LastShownStored(
      rib: seq<RouteObservation>, stream: StreamKey, targets: seq<U32>, pathId: Option<U32>)
    ensures
      var m, k := InstanceMap(Entries(rib, stream, targets)), RouteKey(stream, pathId);
      && (k in m <==> exists i :: LastShown(rib, stream, targets, pathId, i))
      && forall i :: LastShown(rib, stream, targets, pathId, i) ==>
        k in m && m[k] == RouteState(rib[i].attributes.value, rib[i].timestamp)
  {
    if rib != [] {
      var n := |rib| - 1;
      var init, o := rib[..n], rib[n];
      LastShownStored(init, stream, targets, pathId);
      assert rib == init + [o];
      FilterSnoc(init, o, OfStream(stream, targets));
      EntriesSnoc(Entries(init, stream, targets), o);
      assert OfStream(stream, targets)(o) <==> Shows(o, stream, targets);
      if Shows(o, stream, targets) && o.pathId == pathId {
        assert LastShown(rib, stream, targets, pathId, n);
      } else {
        forall i ensures LastShown(rib, stream, targets, pathId, i) <==> LastShown(init, stream, targets, pathId, i) {
          LastShownSnoc(rib, stream, targets, pathId, i);
        }
        var k := RouteKey(stream, pathId);
        if Shows(o, stream, targets) {
          assert o.Key() == RouteKey(stream, o.pathId);
        } else {
          assert Entries(rib, stream, targets) == Entries(init, stream, targets);
        }
        if i :| LastShown(init, stream, targets, pathId, i) {
          assert LastShown(rib, stream, targets, pathId, i);
        }
        if i :| LastShown(rib, stream, targets, pathId, i) {
          assert LastShown(init, stream, targets, pathId, i);
        }
      }
    }
  }

  lemma {:induction false} EntriesSnoc(entries: seq<RouteObservation>, o: RouteObservation)
    ensures InstanceMap(entries + [o]) == InstanceMap(entries)[o.Key() := StateOf(o)]
  {
    assert (entries + [o])[..|entries|] == entries;
  }

  lemma LastShownSnoc(rib: seq<RouteObservation>, stream: StreamKey, targets: seq<U32>, pathId: Option<U32>, i: int)
    requires rib != []
    requires !(Shows(rib[|rib| - 1], stream, targets) && rib[|rib| - 1].pathId == pathId)
    ensures LastShown(rib, stream, targets, pathId, i) <==>
      LastShown(rib[..|rib| - 1], stream, targets, pathId, i)
  {
    var init := rib[..|rib| - 1];
    assert forall j :: 0 <= j < |init| ==> init[j] == rib[j];
  }

  /** A baseline holds, for every path identifier, what the last such entry says, and nothing else. */
  lemma BaselineExactly(
      c: FrozenCohort, rib: seq<RouteObservation>, targets: seq<U32>, tp: TransitPredicate, stream: StreamKey,
      pathId: Option<U32>)
    requires IsFrozen(c, rib, targets, tp) && stream in c.streams
    ensures
      var m, k := c.baselines[stream], RouteKey(stream, pathId);
      && (k in m <==> exists i :: LastShown(rib, stream, targets, pathId, i))
      && forall i :: LastShown(rib, stream, targets, pathId, i) ==>
        k in m && m[k] == RouteState(rib[i].attributes.value, rib[i].timestamp)
  {
    LastShownStored(rib, stream, targets, pathId);
  }

  /** Every key of an admitted stream's baseline belongs to that stream. */
  lemma BaselineKeysOwn(
      c: FrozenCohort, rib: seq<RouteObservation>, targets: seq<U32>, tp: TransitPredicate, stream: StreamKey)
    requires IsFrozen(c, rib, targets, tp) && stream in c.streams
    ensures forall k :: k in c.baselines[stream] ==> k.stream == stream
  {
    EntriesEligible(rib, stream, targets);
    forall k | k in c.baselines[stream] ensures k.stream == stream {
      var i := StoredSurvives(Entries(rib, stream, targets), k);
    }
  }
}
