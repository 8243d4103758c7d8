/** What a restoration event says about the run before it, and which streams count as restored. */
module Restorations {
  import opened Prelude
  import opened Seqs
  import opened Sorting
  import opened Routes
  import opened Lifecycle
  import opened LifecycleProofs
  import opened LifecycleHistory
  import opened LifecycleRuns
  import opened Departures

  // ---- What is on record ----

  /** The moments since the stream last came back. */
  function SinceReturn(tr: seq<Moment>): seq<Moment> {
    if tr == [] then []
    else if ComesBack(tr[|tr| - 1]) then []
    else SinceReturn(tr[..|tr| - 1]) + [tr[|tr| - 1]]
  }

  /** A withdrawal that says which route was there before. */
  predicate Records(m: Moment) { m.t.kind.Withdrawal? && m.t.from.Some? }

  function Entry(m: Moment): (RouteKey, RouteState) {
    (m.t.key, if m.t.from.Some? then m.t.from.value else RouteState(NO_ATTRIBUTES, 0))
  }

  function Recorded(tr: seq<Moment>): (history: seq<(RouteKey, RouteState)>)
    ensures |history| == |Filter(SinceReturn(tr), Records)|
    ensures forall i :: 0 <= i < |history| ==> history[i] == Entry(Filter(SinceReturn(tr), Records)[i])
  {
    Map(Filter(SinceReturn(tr), Records), Entry)
  }

  lemma RecordedSnoc(tr: seq<Moment>, m: Moment)
    ensures Recorded(tr + [m]) == if ComesBack(m) then [] else Recorded(tr) + (if Records(m) then [Entry(m)] else [])
  {
    assert (tr + [m])[..|tr|] == tr;
    FilterSnoc(SinceReturn(tr), m, Records);
    if Records(m) { MapSnoc(Filter(SinceReturn(tr), Records), m, Entry); }
  }

  lemma HistoryStep(l: Ledger, tr: seq<Moment>, m: Moment, baseline: Instances, tp: TransitPredicate)
    requires l.withdrawnHistory == Recorded(tr) && m.after == Acted(m.before, m.t)
    ensures Booked(l, m.before, m.t, m.after, baseline, tp).withdrawnHistory == Recorded(tr + [m])
  {
    RecordedSnoc(tr, m);
    assert m.t.kind.Withdrawal? ==> !ComesBack(m);
  }

  /** The history holds, in order, the withdrawals since the last return that name a previous route. */
  lemma {:induction false} HistoryMeaning(baseline: Instances, ts: seq<RouteTransition>, tp: TransitPredicate)
    ensures LedgerAfter(baseline, ts, tp).withdrawnHistory == Recorded(Trace(baseline, ts))
  {
    if ts != [] {
      var init, t := ts[..|ts| - 1], ts[|ts| - 1];
      HistoryMeaning(baseline, init, tp);
      var m := Moment(ActiveAfter(baseline, init), t, ActiveAfter(baseline, ts));
      HistoryStep(LedgerAfter(baseline, init, tp), Trace(baseline, init), m, baseline, tp);
    }
  }

  // ---- Old path identifiers ----

  predicate PathIdBefore(p: Option<U32>, q: Option<U32>) { PathIdAtMost(p, q) && p != q }

  ghost predicate OnRecord(history: seq<(RouteKey, RouteState)>, id: Option<U32>) {
    exists i :: 0 <= i < |history| && history[i].0.pathId == id
  }

  /** The old path identifiers are those on record, in order, each once. */
  lemma OldPathIdsMeaning(history: seq<(RouteKey, RouteState)>)
    ensures forall i, j :: 0 <= i < j < |OldPathIds(history)| ==>
      OldPathIds(history)[i] != OldPathIds(history)[j] && IdNotAfter(OldPathIds(history)[i], OldPathIds(history)[j])
    ensures forall id :: id in OldPathIds(history) <==> OnRecord(history, id)
  {
    OldPathIdsListed(history);
    var listed := OldPathIds(history);
    forall i, j | 0 <= i < j < |listed| ensures listed[i] != listed[j] && IdNotAfter(listed[i], listed[j]) {
      assert PathIdBefore(listed[i], listed[j]);
      PathIdOrderMeaning(listed[i], listed[j]);
    }
  }

  lemma OldPathIdsListed(history: seq<(RouteKey, RouteState)>)
    ensures Sorted(OldPathIds(history), PathIdBefore)
    ensures forall id :: id in OldPathIds(history) <==> OnRecord(history, id)
  {
    var ids := Map(history, HistoryId);
    assert TotalPreorder(PathIdAtMost) && forall p, q :: PathIdAtMost(p, q) && PathIdAtMost(q, p) ==> p == q;
    SortSorts(ids, PathIdAtMost);
    SortPermutes(ids, PathIdAtMost);
    SameItems(SortBy(ids, PathIdAtMost), ids);
    DedupSorted(SortBy(ids, PathIdAtMost), PathIdAtMost);
    forall id ensures id in ids <==> OnRecord(history, id) {
      if id in ids {
        var i :| 0 <= i < |ids| && ids[i] == id;
        assert history[i].0.pathId == HistoryId(history[i]) == id;
      }
      if OnRecord(history, id) {
        var i :| 0 <= i < |history| && history[i].0.pathId == id;
        assert ids[i] == HistoryId(history[i]) == id;
      }
    }
  }

  /** Some withdrawal of this path identifier since the last return. */
  ghost predicate WithdrawnSince(tr: seq<Moment>, id: Option<U32>) {
    exists i :: 0 <= i < |SinceReturn(tr)| && WithdrawsId(SinceReturn(tr)[i], id)
  }

  predicate WithdrawsId(m: Moment, id: Option<U32>) { m.t.kind.Withdrawal? && m.t.key.pathId == id }

  /** What is documented: the path identifiers that were withdrawn since the last return. */
  ghost predicate OldIdsAsDocumented(tr: seq<Moment>) {
    forall id :: id in OldPathIds(Recorded(tr)) <==> WithdrawnSince(tr, id)
  }

  /** Some withdrawal of the identifier since the last return names its previous route. */
  ghost predicate NamedSomewhere(tr: seq<Moment>, id: Option<U32>) {
    exists i :: 0 <= i < |SinceReturn(tr)| && WithdrawsId(SinceReturn(tr)[i], id) && Records(SinceReturn(tr)[i])
  }

  ghost predicate EachNamed(tr: seq<Moment>) {
    forall id :: WithdrawnSince(tr, id) ==> NamedSomewhere(tr, id)
  }

  lemma RecordedMeans(tr: seq<Moment>, id: Option<U32>)
    ensures OnRecord(Recorded(tr), id) <==> NamedSomewhere(tr, id)
  {
    var since := SinceReturn(tr);
    var kept := Filter(since, Records);
    if OnRecord(Recorded(tr), id) {
      var i :| 0 <= i < |kept| && Recorded(tr)[i].0.pathId == id;
      FilterMember(since, Records, kept[i]);
      var j :| 0 <= j < |since| && since[j] == kept[i];
      assert WithdrawsId(since[j], id);
    }
    if NamedSomewhere(tr, id) {
      var i :| 0 <= i < |since| && WithdrawsId(since[i], id) && Records(since[i]);
      FilterMember(since, Records, since[i]);
      var j :| 0 <= j < |kept| && kept[j] == since[i];
      assert Recorded(tr)[j] == Entry(kept[j]);
    }
  }

  /**
   * As documented exactly when every identifier withdrawn since the last return has a withdrawal that
   * names its previous route.
   */
  lemma OldIdsAsDocumentedExactly(tr: seq<Moment>)
    ensures OldIdsAsDocumented(tr) <==> EachNamed(tr)
  {
    OldPathIdsMeaning(Recorded(tr));
    forall id ensures id in OldPathIds(Recorded(tr)) <==> NamedSomewhere(tr, id) {
      RecordedMeans(tr, id);
    }
    forall id | NamedSomewhere(tr, id) ensures WithdrawnSince(tr, id) {
      var i :| 0 <= i < |SinceReturn(tr)| && WithdrawsId(SinceReturn(tr)[i], id) && Records(SinceReturn(tr)[i]);
    }
  }

  // ---- The same instance again ----

  function LastRecorded(history: seq<(RouteKey, RouteState)>, pathId: Option<U32>): Option<RouteState> {
    if history == [] then None
    else
      var last := history[|history| - 1];
      if last.0.pathId == pathId then Some(last.1) else LastRecorded(history[..|history| - 1], pathId)
  }

  /** The documented comparison, with the state the instance had last. */
  predicate ExactAsDocumented(t: RouteTransition, history: seq<(RouteKey, RouteState)>, baseline: Instances) {
    match LastRecorded(history, t.key.pathId)
    case Some(s) => RouteSemanticallyEquivalent(s.attributes, Returning(t))
    case None => t.key in baseline && RouteSemanticallyEquivalent(baseline[t.key].attributes, Returning(t))
  }

  lemma {:induction false} LastRecordedMeaning(history: seq<(RouteKey, RouteState)>, id: Option<U32>)
    ensures LastRecorded(history, id).Some? <==> OnRecord(history, id)
  {
    if history != [] {
      var n := |history| - 1;
      LastRecordedMeaning(history[..n], id);
      if OnRecord(history, id) && history[n].0.pathId != id {
        var i :| 0 <= i < |history| && history[i].0.pathId == id;
        assert history[..n][i].0.pathId == id;
      }
      if i :| 0 <= i < n && history[..n][i].0.pathId == id {
        assert history[i].0.pathId == id;
      }
    }
  }

  lemma {:induction false} FirstRecordedMeaning(history: seq<(RouteKey, RouteState)>, id: Option<U32>)
    ensures FirstRecorded(history, id).Some? <==> OnRecord(history, id)
  {
    if history != [] {
      var rest := history[1..];
      FirstRecordedMeaning(rest, id);
      if OnRecord(history, id) && history[0].0.pathId != id {
        var i :| 0 <= i < |history| && history[i].0.pathId == id;
        assert rest[i - 1].0.pathId == id;
      }
      if i :| 0 <= i < |rest| && rest[i].0.pathId == id {
        assert history[i + 1].0.pathId == id;
      }
    }
  }

  lemma EquivalenceLaws(a: RouteAttributes, b: RouteAttributes, c: RouteAttributes)
    ensures RouteSemanticallyEquivalent(a, a)
    ensures RouteSemanticallyEquivalent(a, b) ==>
      (RouteSemanticallyEquivalent(a, c) <==> RouteSemanticallyEquivalent(b, c))
    ensures RouteSemanticallyEquivalent(a, b) <==> RouteSemanticallyEquivalent(b, a)
  {
  }

  ghost predicate ExactAlwaysAsDocumented(history: seq<(RouteKey, RouteState)>, k: RouteKey, baseline: Instances) {
    forall t: RouteTransition :: t.key == k ==>
      (ExactInstance(t, history, baseline) <==> ExactAsDocumented(t, history, baseline))
  }

  /** The oldest and the newest state on record are equivalent. */
  predicate OldestIsNewest(history: seq<(RouteKey, RouteState)>, id: Option<U32>) {
    var oldest, newest := FirstRecorded(history, id), LastRecorded(history, id);
    oldest.Some? && newest.Some? ==> RouteSemanticallyEquivalent(oldest.value.attributes, newest.value.attributes)
  }

  /**
   * Whatever returns is compared with the last known state exactly when the oldest and the newest on
   * record are equivalent.
   */
  lemma ExactAsDocumentedExactly(history: seq<(RouteKey, RouteState)>, k: RouteKey, baseline: Instances)
    ensures ExactAlwaysAsDocumented(history, k, baseline) <==> OldestIsNewest(history, k.pathId)
  {
    var oldest, newest := FirstRecorded(history, k.pathId), LastRecorded(history, k.pathId);
    FirstRecordedMeaning(history, k.pathId);
    LastRecordedMeaning(history, k.pathId);
    if OldestIsNewest(history, k.pathId) {
      forall t: RouteTransition | t.key == k
        ensures ExactInstance(t, history, baseline) <==> ExactAsDocumented(t, history, baseline)
      {
        if oldest.Some? { EquivalenceLaws(oldest.value.attributes, newest.value.attributes, Returning(t)); }
      }
    } else {
      var t := RouteTransition(k, None, oldest, 0, Announcement, NO_EFFECTS, Event, NO_SOURCE);
      EquivalenceLaws(oldest.value.attributes, newest.value.attributes, oldest.value.attributes);
      assert ExactInstance(t, history, baseline) && !ExactAsDocumented(t, history, baseline);
    }
  }

  // A run in which they are not.

  function Announces(stream: StreamKey, p: Option<U32>, attributes: RouteAttributes, time: int): RouteTransition {
    RouteTransition(RouteKey(stream, p), None, Some(RouteState(attributes, time)), time, Announcement, NO_EFFECTS,
      Event, NO_SOURCE)
  }

  /** One instance is withdrawn, replaced and withdrawn again before the other goes too. */
  function BeforeReturn(stream: StreamKey, p: Option<U32>, q: Option<U32>): seq<RouteTransition> {
    [Withdraws(stream, p, Some(Route(ON_TRANSIT)), 1), Announces(stream, p, OFF_TRANSIT, 2),
     Withdraws(stream, p, Some(RouteState(OFF_TRANSIT, 2)), 3), Withdraws(stream, q, Some(Route(ON_TRANSIT)), 4)]
  }

  /** What one more withdrawal puts on record, unless the stream comes back. */
  function Added(t: RouteTransition): seq<(RouteKey, RouteState)> {
    if t.kind.Withdrawal? && t.from.Some? then [(t.key, t.from.value)] else []
  }

  lemma {:induction false} RunSnoc(baseline: Instances, ts: seq<RouteTransition>, t: RouteTransition)
    ensures ActiveAfter(baseline, ts + [t]) == Acted(ActiveAfter(baseline, ts), t)
    ensures
      var before, history := ActiveAfter(baseline, ts), Recorded(Trace(baseline, ts));
      Recorded(Trace(baseline, ts + [t])) == if ComesBackTo(before, Acted(before, t)) then [] else history + Added(t)
  {
    var m := Moment(ActiveAfter(baseline, ts), t, Acted(ActiveAfter(baseline, ts), t));
    assert (ts + [t])[..|ts|] == ts;
    RecordedSnoc(Trace(baseline, ts), m);
  }

  lemma FirstOne(stream: StreamKey, p: Option<U32>, q: Option<U32>)
    requires p != q
    ensures
      var baseline, ts, kp, kq :=
        TwoOnTransit(stream, p, q), BeforeReturn(stream, p, q), RouteKey(stream, p), RouteKey(stream, q);
      && ActiveAfter(baseline, ts[..1]) == map[kq := Route(ON_TRANSIT)]
      && Recorded(Trace(baseline, ts[..1])) == [(kp, Route(ON_TRANSIT))]
  {
    var baseline, ts := TwoOnTransit(stream, p, q), BeforeReturn(stream, p, q);
    RunSnoc(baseline, [], ts[0]);
    assert [] + [ts[0]] == [ts[0]] == ts[..1];
  }

  lemma FirstTwo(stream: StreamKey, p: Option<U32>, q: Option<U32>)
    requires p != q
    ensures
      var baseline, ts, kp, kq :=
        TwoOnTransit(stream, p, q), BeforeReturn(stream, p, q), RouteKey(stream, p), RouteKey(stream, q);
      && ActiveAfter(baseline, ts[..2]) == map[kq := Route(ON_TRANSIT), kp := RouteState(OFF_TRANSIT, 2)]
      && Recorded(Trace(baseline, ts[..2])) == [(kp, Route(ON_TRANSIT))]
  {
    var baseline, ts, kq := TwoOnTransit(stream, p, q), BeforeReturn(stream, p, q), RouteKey(stream, q);
    FirstOne(stream, p, q);
    assert kq in ActiveAfter(baseline, ts[..1]);
    RunSnoc(baseline, ts[..1], ts[1]);
    assert ts[..1] + [ts[1]] == ts[..2];
  }

  lemma FirstThree(stream: StreamKey, p: Option<U32>, q: Option<U32>)
    requires p != q
    ensures
      var baseline, ts, kp, kq :=
        TwoOnTransit(stream, p, q), BeforeReturn(stream, p, q), RouteKey(stream, p), RouteKey(stream, q);
      && ActiveAfter(baseline, ts[..3]) == map[kq := Route(ON_TRANSIT)]
      && Recorded(Trace(baseline, ts[..3])) == [(kp, Route(ON_TRANSIT)), (kp, RouteState(OFF_TRANSIT, 2))]
  {
    var baseline, ts, kq := TwoOnTransit(stream, p, q), BeforeReturn(stream, p, q), RouteKey(stream, q);
    FirstTwo(stream, p, q);
    RunSnoc(baseline, ts[..2], ts[2]);
    assert ts[..2] + [ts[2]] == ts[..3];
  }

  lemma HistoryBeforeReturn(stream: StreamKey, p: Option<U32>, q: Option<U32>)
    requires p != q
    ensures
      var baseline, ts, kp, kq :=
        TwoOnTransit(stream, p, q), BeforeReturn(stream, p, q), RouteKey(stream, p), RouteKey(stream, q);
      && ActiveAfter(baseline, ts) == map[]
      && Recorded(Trace(baseline, ts))
        == [(kp, Route(ON_TRANSIT)), (kp, RouteState(OFF_TRANSIT, 2)), (kq, Route(ON_TRANSIT))]
  {
    var baseline, ts := TwoOnTransit(stream, p, q), BeforeReturn(stream, p, q);
    FirstThree(stream, p, q);
    RunSnoc(baseline, ts[..3], ts[3]);
    assert ts[..3] + [ts[3]] == ts;
  }

  /** The last known state comes back, under the same path identifier, and is not recognised. */
  lemma {:induction false} LastStateNotRecognised(
      stream: StreamKey, p: Option<U32>, q: Option<U32>, tp: TransitPredicate)
    requires p != q
    ensures
      var baseline, ts, t :=
        TwoOnTransit(stream, p, q), BeforeReturn(stream, p, q), Announces(stream, p, OFF_TRANSIT, 5);
      var rs := LedgerAfter(baseline, ts + [t], tp).restorations;
      && rs != [] && !rs[|rs| - 1].exactInstance
      && ExactAsDocumented(t, LedgerAfter(baseline, ts, tp).withdrawnHistory, baseline)
  {
    var baseline, ts, t := TwoOnTransit(stream, p, q), BeforeReturn(stream, p, q), Announces(stream, p, OFF_TRANSIT, 5);
    HistoryBeforeReturn(stream, p, q);
    HistoryMeaning(baseline, ts, tp);
    assert (ts + [t])[..|ts|] == ts;
    RunSnoc(baseline, ts, t);
    var history := LedgerAfter(baseline, ts, tp).withdrawnHistory;
    assert history[..2][..1] == history[..1];
    assert history[..|history| - 1] == history[..2];
    assert LastRecorded(history, p) == Some(RouteState(OFF_TRANSIT, 2));
    assert FirstRecorded(history, p) == Some(Route(ON_TRANSIT));
    SemanticEqualityMeaning(ON_TRANSIT, OFF_TRANSIT);
    EquivalenceLaws(OFF_TRANSIT, OFF_TRANSIT, OFF_TRANSIT);
    assert !ExactInstance(t, history, baseline) && ExactAsDocumented(t, history, baseline);
    assert t.key in ActiveAfter(baseline, ts + [t]);
    assert ComesBackTo(ActiveAfter(baseline, ts), ActiveAfter(baseline, ts + [t]));
    var l := LedgerAfter(baseline, ts, tp);
    assert LedgerAfter(baseline, ts + [t], tp) == Regained(l, t, ActiveAfter(baseline, ts + [t]), baseline);
  }

  // ---- Every restoration ----

  /** What the restoration at position `i` of a run says. */
  /** Equal in everything but the order of the communities. */
  predicate SameRoute(a: RouteAttributes, b: RouteAttributes) {
    a.(communities := []) == b.(communities := []) && multiset(a.communities) == multiset(b.communities)
  }

  /** Entry `i` is the oldest on record of this path identifier. */
  predicate OldestAt(history: seq<(RouteKey, RouteState)>, id: Option<U32>, i: int) {
    && 0 <= i < |history| && history[i].0.pathId == id
    && forall j :: 0 <= j < i ==> history[j].0.pathId != id
  }

  /** The same route as the oldest on record of its path identifier; without one, as its own in the baseline. */
  ghost predicate ComparesAsOldest(
      a: RouteAttributes, k: RouteKey, history: seq<(RouteKey, RouteState)>, baseline: Instances)
  {
    if exists i :: OldestAt(history, k.pathId, i) then
      exists i :: OldestAt(history, k.pathId, i) && SameRoute(history[i].1.attributes, a)
    else k in baseline && SameRoute(baseline[k].attributes, a)
  }

  lemma {:induction false} OldestMeans(history: seq<(RouteKey, RouteState)>, id: Option<U32>)
    ensures FirstRecorded(history, id).None? ==> forall i :: !OldestAt(history, id, i)
    ensures FirstRecorded(history, id).Some? ==>
      exists i :: OldestAt(history, id, i) && history[i].1 == FirstRecorded(history, id).value
    ensures forall i, j :: OldestAt(history, id, i) && OldestAt(history, id, j) ==> i == j
  {
    if history != [] {
      if history[0].0.pathId == id {
        assert OldestAt(history, id, 0);
      } else {
        OldestMeans(history[1..], id);
        forall i ensures OldestAt(history, id, i) <==> i >= 1 && OldestAt(history[1..], id, i - 1) {
          OldestLater(history, id, i);
        }
        if i :| OldestAt(history[1..], id, i) && history[1..][i].1 == FirstRecorded(history, id).value {
          assert OldestAt(history, id, i + 1) && history[i + 1].1 == FirstRecorded(history, id).value;
        }
      }
    }
  }

  lemma OldestLater(history: seq<(RouteKey, RouteState)>, id: Option<U32>, i: int)
    requires history != [] && history[0].0.pathId != id
    ensures OldestAt(history, id, i) <==> i >= 1 && OldestAt(history[1..], id, i - 1)
  {
    var rest := history[1..];
    assert forall j :: 0 <= j < |rest| ==> rest[j] == history[j + 1];
    if i >= 1 && OldestAt(rest, id, i - 1) {
      forall j | 0 <= j < i ensures history[j].0.pathId != id {
        if j > 0 { assert rest[j - 1].0.pathId != id; }
      }
    }
    if OldestAt(history, id, i) {
      forall j | 0 <= j < i - 1 ensures rest[j].0.pathId != id {
        assert history[j + 1].0.pathId != id;
      }
    }
  }

  lemma ExactMeans(t: RouteTransition, history: seq<(RouteKey, RouteState)>, baseline: Instances)
    requires t.to.Some?
    ensures ExactInstance(t, history, baseline) <==>
      ComparesAsOldest(t.to.value.attributes, t.key, history, baseline)
    ensures EquivalentRoute(t, baseline) <==>
      exists k :: k in baseline && SameRoute(baseline[k].attributes, t.to.value.attributes)
  {
    OldestMeans(history, t.key.pathId);
    forall a, b ensures RouteSemanticallyEquivalent(a, b) <==> SameRoute(a, b) {
      SemanticEqualityMeaning(a, b);
    }
  }

  ghost predicate TellsOf(r: StreamRestoration, baseline: Instances, ts: seq<RouteTransition>, i: int)
    requires 0 <= i < |ts|
  {
    var t, history := ts[i], Recorded(Trace(baseline, ts[..i]));
    && r.timestamp == t.Time() && r.newPathIds == [t.key.pathId] && r.observerPrefix
    && r.oldPathIds == OldPathIds(history)
    && t.to.Some?
    && (r.exactInstance <==> ComparesAsOldest(t.to.value.attributes, t.key, history, baseline))
    && (r.equivalentRoute <==> exists k :: k in baseline && SameRoute(baseline[k].attributes, t.to.value.attributes))
    && (r.baselineSet <==> |baseline| == 1 && r.equivalentRoute)
  }

  lemma {:induction false} ClassifiedTells(baseline: Instances, ts: seq<RouteTransition>, i: int, tp: TransitPredicate)
    requires 0 <= i < |ts| && ComesBackTo(ActiveAfter(baseline, ts[..i]), ActiveAfter(baseline, ts[..i + 1]))
    ensures TellsOf(
      Classified(ts[i], LedgerAfter(baseline, ts[..i], tp).withdrawnHistory, baseline,
        ActiveAfter(baseline, ts[..i + 1])),
      baseline, ts, i)
  {
    HistoryMeaning(baseline, ts[..i], tp);
    assert ts[..i + 1][..i] == ts[..i];
    ReturningAlone(ActiveAfter(baseline, ts[..i]), ts[i]);
    ExactMeans(ts[i], Recorded(Trace(baseline, ts[..i])), baseline);
    BaselineSetMeaning(ts[i], LedgerAfter(baseline, ts[..i], tp).withdrawnHistory, baseline);
  }

  ghost predicate ReturnsAt(baseline: Instances, ts: seq<RouteTransition>, i: int) {
    0 <= i < |ts| && ComesBackTo(ActiveAfter(baseline, ts[..i]), ActiveAfter(baseline, ts[..i + 1]))
  }

  ghost predicate RestoresAt(r: StreamRestoration, baseline: Instances, ts: seq<RouteTransition>, i: int) {
    ReturnsAt(baseline, ts, i) && TellsOf(r, baseline, ts, i)
  }

  /** The moments, in order, at which an absent stream becomes visible. */
  ghost function Returns(baseline: Instances, ts: seq<RouteTransition>): (at: seq<nat>) {
    if ts == [] then [] else
      var n := |ts| - 1;
      Returns(baseline, ts[..n]) + if ReturnsAt(baseline, ts, n) then [n] else []
  }

  /** All of them, each once. */
  lemma {:induction false} ReturnsMeaning(baseline: Instances, ts: seq<RouteTransition>)
    ensures forall i :: i in Returns(baseline, ts) <==> ReturnsAt(baseline, ts, i)
  {
    if ts != [] {
      var n := |ts| - 1;
      ReturnsMeaning(baseline, ts[..n]);
      forall i ensures i in Returns(baseline, ts) <==> ReturnsAt(baseline, ts, i) {
        if 0 <= i < n {
          SamePrefixes(ts, n, i);
        }
      }
    }
  }

  /** And in order. */
  lemma {:induction false} ReturnsInOrder(baseline: Instances, ts: seq<RouteTransition>)
    ensures Rising(Returns(baseline, ts))
  {
    if ts != [] {
      var n := |ts| - 1;
      ReturnsInOrder(baseline, ts[..n]);
      ReturnsMeaning(baseline, ts[..n]);
      RisingSnoc(Returns(baseline, ts[..n]), n);
    }
  }

  lemma SamePrefixes(ts: seq<RouteTransition>, n: nat, i: int)
    requires 0 <= i < n <= |ts|
    ensures ts[..n][..i] == ts[..i] && ts[..n][..i + 1] == ts[..i + 1]
  {
  }

  /** Each restoration of every run is that of one of its returns, and each return has its restoration. */
  ghost predicate RestoresEach(rs: seq<StreamRestoration>, baseline: Instances, ts: seq<RouteTransition>, at: seq<nat>)
  {
    |rs| == |at| && forall k :: 0 <= k < |rs| ==> RestoresAt(rs[k], baseline, ts, at[k])
  }

  /** The restorations of every run are those of its returns, in order, and say what happened since the one before. */
  lemma {:induction false} RestorationsMeaning(baseline: Instances, ts: seq<RouteTransition>, tp: TransitPredicate)
    ensures RestoresEach(LedgerAfter(baseline, ts, tp).restorations, baseline, ts, Returns(baseline, ts))
  {
    if ts != [] {
      var n := |ts| - 1;
      var init, t := ts[..n], ts[n];
      var before, at := ActiveAfter(baseline, init), Returns(baseline, init);
      var rs := LedgerAfter(baseline, init, tp).restorations;
      RestorationsMeaning(baseline, init, tp);
      RestoresInLonger(rs, baseline, ts, n, at);
      assert ts[..n + 1] == ts;
      BookedRestorations(LedgerAfter(baseline, init, tp), before, t, baseline, tp);
      if ReturnsAt(baseline, ts, n) {
        ClassifiedTells(baseline, ts, n, tp);
        var r := Classified(t, LedgerAfter(baseline, init, tp).withdrawnHistory, baseline, ActiveAfter(baseline, ts));
        RestoresSnoc(rs, r, baseline, ts, at, n);
      }
    }
  }

  lemma BookedRestorations(l: Ledger, before: Instances, t: RouteTransition, baseline: Instances, tp: TransitPredicate)
    ensures
      var after := Acted(before, t);
      Booked(l, before, t, after, baseline, tp).restorations
        == l.restorations
          + if ComesBackTo(before, after) then [Classified(t, l.withdrawnHistory, baseline, after)] else []
  {
  }

  lemma RestoresSnoc(
      rs: seq<StreamRestoration>, r: StreamRestoration, baseline: Instances, ts: seq<RouteTransition>, at: seq<nat>,
      i: nat)
    requires RestoresEach(rs, baseline, ts, at) && RestoresAt(r, baseline, ts, i)
    ensures RestoresEach(rs + [r], baseline, ts, at + [i])
  {
  }

  lemma RestoresInLonger(
      rs: seq<StreamRestoration>, baseline: Instances, ts: seq<RouteTransition>, n: nat, at: seq<nat>)
    requires n <= |ts| && RestoresEach(rs, baseline, ts[..n], at)
    ensures RestoresEach(rs, baseline, ts, at)
  {
    forall k | 0 <= k < |rs| ensures RestoresAt(rs[k], baseline, ts, at[k]) {
      assert RestoresAt(rs[k], baseline, ts[..n], at[k]);
      SamePrefixes(ts, n, at[k]);
    }
  }

  function LostUnnamed(stream: StreamKey, p: Option<U32>): seq<RouteTransition> {
    [Withdraws(stream, p, None, 0), Announces(stream, p, ON_TRANSIT, 1)]
  }

  lemma {:induction false} UnnamedIsNotRecorded(stream: StreamKey, p: Option<U32>)
    ensures
      var tr := Trace(Alone(stream, p, ON_TRANSIT), LostUnnamed(stream, p)[..1]);
      Recorded(tr) == [] && WithdrawnSince(tr, p)
  {
    var baseline, t := Alone(stream, p, ON_TRANSIT), LostUnnamed(stream, p)[0];
    var m := Moment(baseline, t, Acted(baseline, t));
    assert LostUnnamed(stream, p)[..1] == [t];
    OneMoment(baseline, t);
    assert !ComesBack(m) && [m][..0] == [];
    assert SinceReturn([m]) == [] + [m] == [m];
    assert WithdrawsId(SinceReturn([m])[0], p);
    assert [m][1..] == [] && Filter([m], Records) == [];
  }

  /** An instance goes, by a withdrawal that names no route, and comes back: the restoration does not know of it. */
  lemma {:induction false} UnnamedWithdrawal(stream: StreamKey, p: Option<U32>, tp: TransitPredicate)
    ensures
      var baseline, ts := Alone(stream, p, ON_TRANSIT), LostUnnamed(stream, p);
      var rs := LedgerAfter(baseline, ts, tp).restorations;
      && |rs| == 1 && rs[0].oldPathIds == [] && rs[0].newPathIds == [p]
      && WithdrawnSince(Trace(baseline, ts[..1]), p) && !OldIdsAsDocumented(Trace(baseline, ts[..1]))
  {
    var baseline, ts := Alone(stream, p, ON_TRANSIT), LostUnnamed(stream, p);
    UnnamedIsNotRecorded(stream, p);
    TraceOfTwo(baseline, ts[0], ts[1]);
    assert ts[..1][..0] == [] && ts[..2] == ts;
    assert Returns(baseline, ts[..1]) == [];
    assert Returns(baseline, ts) == [1];
    RestorationsMeaning(baseline, ts, tp);
  }

  // ---- Which streams count as restored ----

  function RestoredFlag(s: Sim, tp: TransitPredicate): bool { FlagsOf(s, false, tp).restored }

  lemma {:induction false} AbsentMeansCrossing(baseline: Instances, ts: seq<RouteTransition>, n: nat)
    requires baseline != map[] && n <= |ts| && ActiveAfter(baseline, ts[..n]) == map[]
    ensures Times(Trace(baseline, ts), GoesAbsent) > 0
  {
    assert n > 0;
    if ActiveAfter(baseline, ts[..n - 1]) == map[] {
      AbsentMeansCrossing(baseline, ts, n - 1);
    } else {
      TraceAt(baseline, ts, n - 1);
      assert ts[..n][..n - 1] == ts[..n - 1];
      TimesPositive(Trace(baseline, ts), GoesAbsent);
    }
  }

  lemma {:induction false} WithdrawnMeansReturned(baseline: Instances, ts: seq<RouteTransition>, tp: TransitPredicate)
    requires baseline != map[] && ActiveAfter(baseline, ts) != map[]
    ensures LedgerAfter(baseline, ts, tp).restorationCount > 0 <==> LedgerAfter(baseline, ts, tp).withdrawalCount > 0
  {
    var tr := Trace(baseline, ts);
    WithdrawalLedger(baseline, ts, tp);
    CountersMeaning(baseline, ts, tp);
    LedgerOfMoments(baseline, ts);
    EmptyingMeansCrossing(baseline, ts);
  }

  lemma {:induction false} EmptyingMeansCrossing(baseline: Instances, ts: seq<RouteTransition>)
    requires baseline != map[]
    ensures Times(Trace(baseline, ts), Empties) > 0 ==> Times(Trace(baseline, ts), GoesAbsent) > 0
  {
    var tr := Trace(baseline, ts);
    TimesPositive(tr, Empties);
    if i :| 0 <= i < |tr| && Empties(tr[i]) {
      TraceAt(baseline, ts, i);
      AbsentMeansCrossing(baseline, ts, i + 1);
    }
  }

  /** An admitted stream counts as restored exactly when it was withdrawn and some active route matches at the end. */
  lemma RestoredMeaning(baseline: Instances, ts: seq<RouteTransition>, tp: TransitPredicate)
    requires AnyMatching(baseline, tp)
    ensures
      var s := Simulate(baseline, ts, tp);
      RestoredFlag(s, tp) <==> CategoryOf(s).Withdrawn? && AnyMatching(s.active, tp)
  {
    AdmittedNotRestored(baseline, ts, tp);
    if AnyMatching(ActiveAfter(baseline, ts), tp) {
      WithdrawnMeansReturned(baseline, ts, tp);
    }
  }

  /** What is documented: lost at some point, absent or off the transit, and matching at the end. */
  ghost predicate RestoredAsDocumented(baseline: Instances, ts: seq<RouteTransition>, tp: TransitPredicate) {
    RestoredFlag(Simulate(baseline, ts, tp), tp) <==>
      (CategoryOf(Simulate(baseline, ts, tp)).Withdrawn? || WentOffTransit(baseline, ts, tp))
        && AnyMatching(ActiveAfter(baseline, ts), tp)
  }

  function Back(stream: StreamKey, p: Option<U32>): RouteTransition {
    RouteTransition(RouteKey(stream, p), Some(Route(OFF_TRANSIT)), Some(Route(ON_TRANSIT)), 1,
      PathReplacement([2], [1]), NO_EFFECTS, Event, NO_SOURCE)
  }

  lemma OnAndOff()
    ensures Via(ContainsAny([1]), Route(ON_TRANSIT)) && !Via(ContainsAny([1]), Route(OFF_TRANSIT))
  {
    assert 1 in [1];
  }

  lemma NotWithdrawnWithoutWithdrawal(baseline: Instances, ts: seq<RouteTransition>, tp: TransitPredicate)
    requires forall i :: 0 <= i < |ts| ==> !ts[i].kind.Withdrawal?
    ensures !CategoryOf(Simulate(baseline, ts, tp)).Withdrawn?
  {
    CategoryMeaning(baseline, ts, tp);
    forall i | 0 <= i < |ts| ensures !Empties(Trace(baseline, ts)[i]) {
      TraceAt(baseline, ts, i);
    }
  }

  function Alone(stream: StreamKey, p: Option<U32>, attributes: RouteAttributes): Instances {
    map[RouteKey(stream, p) := Route(attributes)]
  }

  /** Off the transit and back to it, by transitions of some kind. */
  function AwayThenBack(stream: StreamKey, p: Option<U32>, kind: TransitionKind): seq<RouteTransition> {
    [OneLeaves(stream, p).(kind := kind), Back(stream, p).(kind := kind)]
  }

  lemma AwayThenBackActive(stream: StreamKey, p: Option<U32>, kind: TransitionKind)
    requires !kind.Withdrawal?
    ensures
      var ts := AwayThenBack(stream, p, kind);
      && ActiveAfter(Alone(stream, p, ON_TRANSIT), ts[..1]) == Alone(stream, p, OFF_TRANSIT)
      && ActiveAfter(Alone(stream, p, ON_TRANSIT), ts) == Alone(stream, p, ON_TRANSIT)
  {
    var ts := AwayThenBack(stream, p, kind);
    assert ts[..1] == [ts[0]] && [ts[0]][..0] == [];
    assert ActiveAfter(Alone(stream, p, ON_TRANSIT), [ts[0]]) == Acted(Alone(stream, p, ON_TRANSIT), ts[0]);
    assert ActiveAfter(Alone(stream, p, ON_TRANSIT), ts) == Acted(Alone(stream, p, OFF_TRANSIT), ts[1]);
  }

  lemma OneMatches(stream: StreamKey, p: Option<U32>)
    ensures AnyMatching(Alone(stream, p, ON_TRANSIT), ContainsAny([1]))
    ensures OffTransit(Alone(stream, p, OFF_TRANSIT), ContainsAny([1]))
  {
    OnAndOff();
    assert RouteKey(stream, p) in Alone(stream, p, ON_TRANSIT) && RouteKey(stream, p) in Alone(stream, p, OFF_TRANSIT);
  }

  /** Away and back without a withdrawal: not restored. */
  lemma AwayAndBack(stream: StreamKey, p: Option<U32>, kind: TransitionKind)
    requires !kind.Withdrawal?
    ensures !RestoredAsDocumented(Alone(stream, p, ON_TRANSIT), AwayThenBack(stream, p, kind), ContainsAny([1]))
  {
    var baseline, ts, tp := Alone(stream, p, ON_TRANSIT), AwayThenBack(stream, p, kind), ContainsAny([1]);
    OneMatches(stream, p);
    AwayThenBackActive(stream, p, kind);
    assert OffTransitAfter(baseline, ts, 1, tp);
    assert WentOffTransit(baseline, ts, tp);
    RestoredMeaning(baseline, ts, tp);
    NotWithdrawnWithoutWithdrawal(baseline, ts, tp);
  }

  /** A run of an admitted stream is as documented unless it departs, is never withdrawn and matches at the end. */
  lemma {:induction false} RestoredRunExactly(baseline: Instances, ts: seq<RouteTransition>, tp: TransitPredicate)
    requires AnyMatching(baseline, tp)
    ensures RestoredAsDocumented(baseline, ts, tp) <==>
      !(WentOffTransit(baseline, ts, tp) && !CategoryOf(Simulate(baseline, ts, tp)).Withdrawn?
        && AnyMatching(ActiveAfter(baseline, ts), tp))
  {
    RestoredMeaning(baseline, ts, tp);
  }

  ghost predicate RestoredAlwaysAsDocumented(kinds: set<TransitionKind>) {
    forall baseline, ts, tp :: OfKinds(ts, kinds) && AnyMatching(baseline, tp) ==>
      RestoredAsDocumented(baseline, ts, tp)
  }

  /** Withdrawals only remove: what is active at the end was active all along. */
  lemma {:induction false} OnlyRemoved(baseline: Instances, ts: seq<RouteTransition>, n: nat, k: RouteKey)
    requires n <= |ts| && k in ActiveAfter(baseline, ts)
    requires forall i :: 0 <= i < |ts| ==> ts[i].kind.Withdrawal?
    ensures k in ActiveAfter(baseline, ts[..n]) && ActiveAfter(baseline, ts[..n])[k] == ActiveAfter(baseline, ts)[k]
  {
    if n < |ts| {
      OnlyRemoved(baseline, ts[..|ts| - 1], n, k);
      assert ts[..|ts| - 1][..n] == ts[..n];
    } else {
      assert ts[..n] == ts;
    }
  }

  lemma {:induction false} NeverOff(baseline: Instances, ts: seq<RouteTransition>, tp: TransitPredicate)
    requires forall i :: 0 <= i < |ts| ==> ts[i].kind.Withdrawal?
    requires AnyMatching(ActiveAfter(baseline, ts), tp)
    ensures !WentOffTransit(baseline, ts, tp)
  {
    var k :| k in ActiveAfter(baseline, ts) && Via(tp, ActiveAfter(baseline, ts)[k]);
    forall n: nat | n <= |ts| ensures !OffTransitAfter(baseline, ts, n, tp) {
      OnlyRemoved(baseline, ts, n, k);
    }
  }

  /** For all admitted runs of some kinds of transitions as documented exactly when these are withdrawals. */
  lemma RestoredAsDocumentedExactly(kinds: set<TransitionKind>)
    ensures RestoredAlwaysAsDocumented(kinds) <==> forall kind :: kind in kinds ==> kind.Withdrawal?
  {
    if kind :| kind in kinds && !kind.Withdrawal? {
      var stream := StreamKey("", "", "");
      AwayAndBack(stream, None, kind);
      OneMatches(stream, None);
      assert OfKinds(AwayThenBack(stream, None, kind), kinds);
    } else {
      forall baseline, ts, tp | OfKinds(ts, kinds) && AnyMatching(baseline, tp)
        ensures RestoredAsDocumented(baseline, ts, tp)
      {
        RestoredRunExactly(baseline, ts, tp);
        if AnyMatching(ActiveAfter(baseline, ts), tp) {
          NeverOff(baseline, ts, tp);
        }
      }
    }
  }

  // ---- Restored before anything was lost ----

  /** The transitions' previous routes are the active ones. */
  ghost predicate Coherent(baseline: Instances, ts: seq<RouteTransition>) {
    forall i :: 0 <= i < |ts| ==> FollowsOn(ActiveAfter(baseline, ts[..i]), ts[i])
  }

  predicate FollowsOn(active: Instances, t: RouteTransition) {
    t.from == if t.key in active then Some(active[t.key]) else None
  }

  /** Absent, or visible off the transit, after the first `n` transitions. */
  predicate LostAfter(baseline: Instances, ts: seq<RouteTransition>, tp: TransitPredicate, n: int)
    requires 0 <= n <= |ts|
  {
    ActiveAfter(baseline, ts[..n]) == map[] || OffTransit(ActiveAfter(baseline, ts[..n]), tp)
  }

  predicate RestoringAt(baseline: Instances, ts: seq<RouteTransition>, tp: TransitPredicate, i: int)
    requires 0 <= i < |ts|
  {
    Restoring(ActiveAfter(baseline, ts[..i]), ts[i], ActiveAfter(baseline, ts[..i + 1]), tp)
  }

  /** The documented meaning: whatever restores comes after a withdrawal or a departure. */
  ghost predicate RestoresAfterLoss(baseline: Instances, ts: seq<RouteTransition>, tp: TransitPredicate) {
    forall i :: 0 <= i < |ts| && RestoringAt(baseline, ts, tp, i) ==>
      exists n :: 0 < n <= i && LostAfter(baseline, ts, tp, n)
  }

  lemma ReturnedShape(t: RouteTransition, tp: TransitPredicate)
    requires ShapeOf(t, tp) == Some(PathReturnedToRequiredTransit)
    ensures t.from.Some? && !Via(tp, t.from.value)
  {
  }

  lemma SingleRestoresAfterLoss(
      stream: StreamKey, ids: set<Option<U32>>, baseline: Instances, ts: seq<RouteTransition>, tp: TransitPredicate,
      i: nat)
    requires Among(stream, ids, baseline, ts) && |ids| <= 1 && AnyMatching(baseline, tp) && Coherent(baseline, ts)
    requires i < |ts| && RestoringAt(baseline, ts, tp, i)
    ensures i > 0 && LostAfter(baseline, ts, tp, i)
  {
    var before, t := ActiveAfter(baseline, ts[..i]), ts[i];
    assert FollowsOn(before, t);
    assert i == 0 ==> ts[..i] == [] && before == baseline;
    if before != map[] {
      ReturnedShape(t, tp);
      assert t.key in before && before[t.key] == t.from.value;
      forall k | k in before ensures k == t.key {
        OneKeyOnly(stream, ids, baseline, ts[..i], k);
        AtMostOne(ids, k.pathId, t.key.pathId);
      }
      assert OffTransit(before, tp);
    }
  }

  lemma BackReturns(stream: StreamKey, q: Option<U32>)
    ensures ShapeOf(Back(stream, q), ContainsAny([1])) == Some(PathReturnedToRequiredTransit)
  {
    OnAndOff();
    CollapseKeepsMembers([1], 1);
    CollapseKeepsMembers([2], 1);
    assert 1 in Collapse([1]) && 1 !in Collapse([2]);
    SemanticEqualityMeaning(OFF_TRANSIT, ON_TRANSIT);
  }

  /** One instance matches all along, another joins it: a restoration of nothing. */
  lemma RestoresWithoutLoss(stream: StreamKey, p: Option<U32>, q: Option<U32>)
    requires p != q
    ensures
      var baseline := map[RouteKey(stream, p) := Route(ON_TRANSIT), RouteKey(stream, q) := Route(OFF_TRANSIT)];
      && AnyMatching(baseline, ContainsAny([1])) && Coherent(baseline, [Back(stream, q)])
      && FindingsAfter(baseline, [Back(stream, q)], ContainsAny([1])).restorationTime.Some?
      && !RestoresAfterLoss(baseline, [Back(stream, q)], ContainsAny([1]))
  {
    var baseline := map[RouteKey(stream, p) := Route(ON_TRANSIT), RouteKey(stream, q) := Route(OFF_TRANSIT)];
    var ts, tp := [Back(stream, q)], ContainsAny([1]);
    OnAndOff();
    BackReturns(stream, q);
    assert RouteKey(stream, p) in baseline;
    assert ts[..0] == [] && ts[..1] == ts;
    assert RestoringAt(baseline, ts, tp, 0);
  }

  ghost predicate AlwaysRestoresAfterLoss(stream: StreamKey, ids: set<Option<U32>>) {
    forall baseline, ts, tp ::
      (Among(stream, ids, baseline, ts) && AnyMatching(baseline, tp) && Coherent(baseline, ts))
      ==> RestoresAfterLoss(baseline, ts, tp)
  }

  /**
   * For admitted streams and coherent runs, what restores comes after a loss exactly when there is at
   * most one path identifier.
   */
  lemma RestoresAfterLossExactly(stream: StreamKey, ids: set<Option<U32>>)
    ensures AlwaysRestoresAfterLoss(stream, ids) <==> |ids| <= 1
  {
    if |ids| <= 1 {
      forall baseline, ts, tp | Among(stream, ids, baseline, ts) && AnyMatching(baseline, tp) && Coherent(baseline, ts)
        ensures RestoresAfterLoss(baseline, ts, tp)
      {
        forall i | 0 <= i < |ts| && RestoringAt(baseline, ts, tp, i)
          ensures exists n :: 0 < n <= i && LostAfter(baseline, ts, tp, n)
        {
          SingleRestoresAfterLoss(stream, ids, baseline, ts, tp, i);
        }
      }
    } else {
      var p, q := TwoOf(ids);
      var baseline := map[RouteKey(stream, p) := Route(ON_TRANSIT), RouteKey(stream, q) := Route(OFF_TRANSIT)];
      RestoresWithoutLoss(stream, p, q);
      assert Among(stream, ids, baseline, [Back(stream, q)]);
    }
  }
}
