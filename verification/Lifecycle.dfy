/**
 * One observer-prefix stream: its route instances are simulated transition by
 * transition and the stream is then classified.
 *
 * Times are instants in nanoseconds. A baseline and the transitions given to
 * one simulation all belong to the same stream.
 */
module Lifecycle {
  import opened Prelude
  import opened Seqs
  import opened Sorting
  import opened Routes
  import opened Fingerprint

  datatype StreamKey = StreamKey(collector: string, peerIp: string, prefix: string)

  datatype RouteKey = RouteKey(stream: StreamKey, pathId: Option<U32>)

  datatype RouteState = RouteState(attributes: RouteAttributes, timestamp: int)

  type Instances = map<RouteKey, RouteState>

  datatype Phase = Warmup | Event | Cooldown

  datatype TransitionKind =
    | Announcement
    | Withdrawal
    | Duplicate
    | PathReplacement(oldPath: seq<U32>, newPath: seq<U32>)
    | AttributeChange
    | SessionReset
    | Restoration
    | ReturnToBaseline

  datatype PrependChange = NoPrepend | Increased | Reduced | Indeterminate

  /** What changed from one route to the next. */
  datatype Effects = Effects(
    prepend: PrependChange,
    communitiesChanged: bool,
    gracefulShutdownAdded: bool,
    gracefulShutdownRemoved: bool,
    materialPathChanged: bool,
    originChanged: bool,
    nextHopChanged: bool,
    medChanged: bool,
    localPrefChanged: bool)

  const NO_EFFECTS := Effects(NoPrepend, false, false, false, false, false, false, false, false)

  /** The triggering observation, and the archive it came from. */
  datatype Evidence = Evidence(observationId: nat, sourceUrl: Option<string>, archiveSha: Option<string>)

  const NO_SOURCE := Evidence(0, None, None)

  /** `from` and `to` are absent when there was, or is, no route; `evidenceTime` is the time of the `to` evidence. */
  datatype RouteTransition = RouteTransition(
    key: RouteKey,
    from: Option<RouteState>,
    to: Option<RouteState>,
    evidenceTime: int,
    kind: TransitionKind,
    effects: Effects,
    phase: Phase,
    evidence: Evidence)
  {
    function Time(): (time: int)
      ensures to.Some? ==> time == to.value.timestamp
      ensures to.None? ==> time == evidenceTime
    {
      if to.Some? then to.value.timestamp else evidenceTime
    }
  }

  const NANOS := 1_000_000_000

  /** `Duration::num_seconds`: whole seconds, truncated toward zero. */
  function NumSeconds(d: int): int {
    if d >= 0 then d / NANOS else -((-d) / NANOS)
  }

  /** Truncated toward zero means: never further from zero than the duration, and less than a second away from it. */
  lemma NumSecondsMeaning(d: int)
    ensures d >= 0 ==> NumSeconds(d) * 1_000_000_000 <= d < (NumSeconds(d) + 1) * 1_000_000_000
    ensures d <= 0 ==> (NumSeconds(d) - 1) * 1_000_000_000 < d <= NumSeconds(d) * 1_000_000_000
  {
  }

  datatype StreamCategory = Unchanged | PrependOnly | PathChangedStillViaTransit | DepartedTransitPath | Withdrawn

  datatype StreamRestoration = StreamRestoration(
    timestamp: int,
    oldPathIds: seq<Option<U32>>,
    newPathIds: seq<Option<U32>>,
    exactInstance: bool,
    equivalentRoute: bool,
    observerPrefix: bool,
    baselineSet: bool)

  datatype LifecycleTransition = LifecycleTransition(
    timestamp: int,
    phase: Phase,
    kind: TransitionKind,
    pathId: Option<U32>,
    beforePath: seq<U32>,
    afterPath: seq<U32>,
    pathShape: Option<PathShapeChange>,
    observationId: nat)

  /** Instances seen and transitions listed. */
  datatype Tally = Tally(
    maxConcurrent: nat,
    seenInstances: set<RouteKey>,
    main: seq<LifecycleTransition>,
    cooldown: seq<LifecycleTransition>)

  /** Absences and restorations. */
  datatype Ledger = Ledger(
    withdrawnInstances: seq<RouteKey>,
    withdrawnHistory: seq<(RouteKey, RouteState)>,
    withdrawalCount: nat,
    withdrawalTime: Option<int>,
    activeBeforeAbsence: nat,
    transitAtWithdrawal: Option<bool>,
    absenceStart: Option<int>,
    absences: seq<int>,
    restorations: seq<StreamRestoration>,
    restorationCount: nat)

  /** What the classification accumulates. */
  datatype Findings = Findings(
    firstChange: Option<int>,
    seenCategories: set<StreamCategory>,
    prependingChanged: bool,
    replacementAppeared: bool,
    replacementRetainedTransit: Option<bool>,
    baselineRestored: bool,
    restorationTime: Option<int>,
    finalState: Option<RouteState>)

  datatype Sim = Sim(active: Instances, tally: Tally, ledger: Ledger, findings: Findings)

  function Via(tp: TransitPredicate, s: RouteState): bool {
    tp.Evaluate(s.attributes.asPath)
  }

  predicate AnyMatching(active: Instances, tp: TransitPredicate) {
    exists k :: k in active && Via(tp, active[k])
  }

  /** The shape of a material path replacement; anything else has none. */
  function ShapeOf(t: RouteTransition, tp: TransitPredicate): Option<PathShapeChange> {
    if !t.kind.PathReplacement? || t.from.None? || t.to.None? then None
    else if RouteSemanticallyEquivalent(t.from.value.attributes, t.to.value.attributes) then None
    else Some(ClassifyPathChange(t.from.value.attributes.asPath, t.to.value.attributes.asPath, tp))
  }

  function PathOf(s: Option<RouteState>): seq<U32> {
    if s.Some? then s.value.attributes.asPath else []
  }

  function Described(t: RouteTransition, tp: TransitPredicate): LifecycleTransition {
    LifecycleTransition(t.Time(), t.phase, t.kind, t.key.pathId, PathOf(t.from), PathOf(t.to), ShapeOf(t, tp),
      t.evidence.observationId)
  }

  // ---- Restoration kinds ----

  /** The oldest withdrawal of this path identifier still on record. */
  function FirstRecorded(history: seq<(RouteKey, RouteState)>, pathId: Option<U32>): Option<RouteState> {
    if history == [] then None
    else if history[0].0.pathId == pathId then Some(history[0].1)
    else FirstRecorded(history[1..], pathId)
  }

  const NO_ATTRIBUTES := RouteAttributes([], [], None, None, None, None, false, [])

  function Returning(t: RouteTransition): RouteAttributes {
    if t.to.Some? then t.to.value.attributes else NO_ATTRIBUTES
  }

  predicate ExactInstance(t: RouteTransition, history: seq<(RouteKey, RouteState)>, baseline: Instances) {
    match FirstRecorded(history, t.key.pathId)
    case Some(s) => RouteSemanticallyEquivalent(s.attributes, Returning(t))
    case None => t.key in baseline && RouteSemanticallyEquivalent(baseline[t.key].attributes, Returning(t))
  }

  predicate EquivalentRoute(t: RouteTransition, baseline: Instances) {
    exists k :: k in baseline && RouteSemanticallyEquivalent(baseline[k].attributes, Returning(t))
  }

  function FingerprintsOf(m: Instances): map<RouteKey, string> {
    map k | k in m :: SemanticFingerprint(m[k].attributes)
  }

  function CountValue<K, V(==)>(m: map<K, V>, v: V): nat {
    |set k | k in m && m[k] == v|
  }

  function FingerprintCount(m: Instances, fp: string): nat {
    CountValue(FingerprintsOf(m), fp)
  }

  /** Both maps hold every fingerprint equally often. */
  ghost predicate SameFingerprints(m: Instances, n: Instances) {
    forall fp :: FingerprintCount(m, fp) == FingerprintCount(n, fp)
  }

  function PathIdKey(p: Option<U32>): (nat, nat) {
    match p case None => (0, 0) case Some(id) => (1, id)
  }

  predicate PathIdAtMost(p: Option<U32>, q: Option<U32>) {
    var a, b := PathIdKey(p), PathIdKey(q);
    a.0 < b.0 || (a.0 == b.0 && a.1 <= b.1)
  }

  /** No identifier comes first, then the numbers in order. */
  predicate IdNotAfter(p: Option<U32>, q: Option<U32>) { p.None? || (q.Some? && p.value <= q.value) }

  lemma PathIdOrderMeaning(p: Option<U32>, q: Option<U32>)
    ensures PathIdAtMost(p, q) <==> IdNotAfter(p, q)
  {
  }

  function HistoryId(h: (RouteKey, RouteState)): Option<U32> { h.0.pathId }

  function OldPathIds(history: seq<(RouteKey, RouteState)>): seq<Option<U32>> {
    Dedup(SortBy(Map(history, HistoryId), PathIdAtMost))
  }

  ghost function Classified(
      t: RouteTransition, history: seq<(RouteKey, RouteState)>, baseline: Instances, active: Instances)
    : StreamRestoration
  {
    StreamRestoration(
      t.Time(), OldPathIds(history), [t.key.pathId], ExactInstance(t, history, baseline), EquivalentRoute(t, baseline),
      true, SameFingerprints(baseline, active))
  }

  // ---- One transition ----

  /** What a transition does to the active instances: only a withdrawal removes, only a route replaces. */
  function Acted(active: Instances, t: RouteTransition): Instances {
    if t.kind.Withdrawal? then active - {t.key}
    else if t.to.Some? then active[t.key := t.to.value]
    else active
  }

  predicate IsWithdrawal(t: RouteTransition) { t.kind.Withdrawal? }

  predicate Applies(t: RouteTransition) { !t.kind.Withdrawal? && t.to.Some? }

  predicate ComesBackTo(before: Instances, after: Instances) { before == map[] && after != map[] }

  function Counted(y: Tally, t: RouteTransition, after: Instances, tp: TransitPredicate): Tally {
    Tally(
      if Applies(t) && |after| > y.maxConcurrent then |after| else y.maxConcurrent,
      if Applies(t) then y.seenInstances + {t.key} else y.seenInstances,
      if t.phase.Cooldown? then y.main else y.main + [Described(t, tp)],
      if t.phase.Cooldown? then y.cooldown + [Described(t, tp)] else y.cooldown)
  }

  function ClosedAbsence(absences: seq<int>, start: Option<int>, end: int): seq<int> {
    if start.Some? && NumSeconds(end - start.value) > 0 then absences + [NumSeconds(end - start.value)] else absences
  }

  function Lost(l: Ledger, t: RouteTransition, after: Instances, tp: TransitPredicate): Ledger {
    var noted := l.(
      withdrawnInstances := l.withdrawnInstances + [t.key],
      withdrawnHistory := if t.from.Some? then l.withdrawnHistory + [(t.key, t.from.value)] else l.withdrawnHistory);
    if after != map[] then noted
    else noted.(
      withdrawalCount := l.withdrawalCount + 1,
      absenceStart := if l.absenceStart.None? then Some(t.Time()) else l.absenceStart,
      withdrawalTime := Some(t.Time()),
      activeBeforeAbsence := 1,
      transitAtWithdrawal := if t.from.Some? then Some(Via(tp, t.from.value)) else None)
  }

  ghost function Regained(l: Ledger, t: RouteTransition, after: Instances, baseline: Instances): Ledger {
    l.(absences := ClosedAbsence(l.absences, l.absenceStart, t.Time()),
       absenceStart := None,
       restorationCount := l.restorationCount + 1,
       restorations := l.restorations + [Classified(t, l.withdrawnHistory, baseline, after)],
       withdrawnHistory := [])
  }

  ghost function Booked(
      l: Ledger, before: Instances, t: RouteTransition, after: Instances, baseline: Instances, tp: TransitPredicate)
    : Ledger
  {
    if t.kind.Withdrawal? then Lost(l, t, after, tp)
    else if ComesBackTo(before, after) then Regained(l, t, after, baseline)
    else l
  }

  predicate OffTransit(after: Instances, tp: TransitPredicate) { after != map[] && !AnyMatching(after, tp) }

  /** Why one transition puts a category into the accumulated set. */
  predicate Marks(t: RouteTransition, after: Instances, tp: TransitPredicate, c: StreamCategory) {
    match c
    case DepartedTransitPath => OffTransit(after, tp) || ShapeOf(t, tp) == Some(PathDepartedRequiredTransit)
    case PathChangedStillViaTransit => ShapeOf(t, tp) == Some(PathChangedStillViaRequiredTransit)
    case PrependOnly => ShapeOf(t, tp) == Some(PrependReduced) || ShapeOf(t, tp) == Some(PrependIncreased)
    case Unchanged => false
    case Withdrawn => false
  }

  function MarkedBy(t: RouteTransition, after: Instances, tp: TransitPredicate): set<StreamCategory> {
    set c | c in {PrependOnly, PathChangedStillViaTransit, DepartedTransitPath} && Marks(t, after, tp, c)
  }

  predicate Restoring(before: Instances, t: RouteTransition, after: Instances, tp: TransitPredicate) {
    ComesBackTo(before, after) || ShapeOf(t, tp) == Some(PathReturnedToRequiredTransit)
  }

  /** Whether the route that a transition sets, if any, matches the predicate. */
  predicate SetsVia(t: RouteTransition, tp: TransitPredicate) {
    Applies(t) && Via(tp, t.to.value)
  }

  function Found(f: Findings, t: RouteTransition, marks: set<StreamCategory>, restoring: bool, via: bool): Findings {
    Findings(
      if t.phase.Event? && f.firstChange.None? then Some(t.Time()) else f.firstChange,
      f.seenCategories + marks,
      f.prependingChanged || PrependOnly in marks,
      f.replacementAppeared || Applies(t),
      if Applies(t) && f.replacementRetainedTransit.None? then Some(via) else f.replacementRetainedTransit,
      f.baselineRestored || t.kind.ReturnToBaseline?,
      if restoring && f.restorationTime.None? then Some(t.Time()) else f.restorationTime,
      if t.kind.Withdrawal? then None else if t.to.Some? then t.to else f.finalState)
  }

  // ---- The whole run: four folds over the same transitions ----

  function ActiveAfter(baseline: Instances, ts: seq<RouteTransition>): Instances {
    if ts == [] then baseline else Acted(ActiveAfter(baseline, ts[..|ts| - 1]), ts[|ts| - 1])
  }

  function TallyAfter(baseline: Instances, ts: seq<RouteTransition>, tp: TransitPredicate): Tally {
    if ts == [] then Tally(|baseline|, baseline.Keys, [], [])
    else Counted(TallyAfter(baseline, ts[..|ts| - 1], tp), ts[|ts| - 1], ActiveAfter(baseline, ts), tp)
  }

  const NO_ABSENCE := Ledger([], [], 0, None, 0, None, None, [], [], 0)

  ghost function LedgerAfter(baseline: Instances, ts: seq<RouteTransition>, tp: TransitPredicate): Ledger {
    if ts == [] then NO_ABSENCE
    else
      var init := ts[..|ts| - 1];
      Booked(LedgerAfter(baseline, init, tp), ActiveAfter(baseline, init), ts[|ts| - 1], ActiveAfter(baseline, ts),
        baseline, tp)
  }

  const NO_FINDINGS := Findings(None, {}, false, false, None, false, None, None)

  function FindingsAfter(baseline: Instances, ts: seq<RouteTransition>, tp: TransitPredicate): Findings {
    if ts == [] then NO_FINDINGS
    else
      var init, t := ts[..|ts| - 1], ts[|ts| - 1];
      var before, after := ActiveAfter(baseline, init), ActiveAfter(baseline, ts);
      Found(FindingsAfter(baseline, init, tp), t, MarkedBy(t, after, tp), Restoring(before, t, after, tp),
        SetsVia(t, tp))
  }

  ghost function Simulate(baseline: Instances, ts: seq<RouteTransition>, tp: TransitPredicate): Sim {
    Sim(ActiveAfter(baseline, ts), TallyAfter(baseline, ts, tp), LedgerAfter(baseline, ts, tp),
      FindingsAfter(baseline, ts, tp))
  }

  // ---- Classification at the end of the window ----

  datatype StreamFlags = StreamFlags(restored: bool, notRestored: bool, multipleCycles: bool, addPathAmbiguous: bool)

  datatype StreamLifecycle = StreamLifecycle(
    stream: StreamKey,
    baselinePath: seq<U32>,
    baselineInstanceCount: nat,
    maxConcurrentInstances: nat,
    totalRouteInstances: nat,
    category: StreamCategory,
    flags: StreamFlags,
    firstChange: Option<int>,
    transitions: seq<LifecycleTransition>,
    cooldownTransitions: seq<LifecycleTransition>,
    minAbsenceSecs: Option<int>,
    maxAbsenceSecs: Option<int>,
    wasWithdrawn: bool,
    streamWithdrawalTime: Option<int>,
    activeBeforeAbsence: nat,
    transitAtWithdrawal: Option<bool>,
    withdrawnInstances: seq<RouteKey>,
    streamWithdrawalCount: nat,
    restorations: seq<StreamRestoration>,
    replacementAppeared: bool,
    replacementRetainedTransit: Option<bool>,
    prependingChanged: bool,
    finalState: Option<RouteState>,
    baselineRestored: bool,
    restorationTime: Option<int>,
    affectedDurationSecs: Option<int>)

  function CategoryOf(s: Sim): StreamCategory {
    if s.ledger.withdrawalCount > 0 then Withdrawn
    else if DepartedTransitPath in s.findings.seenCategories then DepartedTransitPath
    else if PathChangedStillViaTransit in s.findings.seenCategories then PathChangedStillViaTransit
    else if PrependOnly in s.findings.seenCategories then PrependOnly
    else Unchanged
  }

  predicate NotRestored(s: Sim, tp: TransitPredicate) {
    || (s.active == map[] && s.ledger.withdrawalCount > 0)
    || (OffTransit(s.active, tp) && DepartedTransitPath in s.findings.seenCategories)
  }

  predicate Keyed(k: RouteKey) { k.pathId.Some? }

  /** Keyed and unkeyed records both appear, in the baseline or the transitions. */
  predicate Ambiguous(baseline: Instances, ts: seq<RouteTransition>) {
    && ((exists k :: k in baseline && Keyed(k)) || (exists i :: 0 <= i < |ts| && Keyed(ts[i].key)))
    && ((exists k :: k in baseline && !Keyed(k)) || (exists i :: 0 <= i < |ts| && !Keyed(ts[i].key)))
  }

  /** The first record whose key passes, in the order of the simulation. */
  ghost predicate IsFirstRecord(o: Option<nat>, ts: seq<RouteTransition>, p: RouteKey -> bool) {
    match o
    case None => forall i :: 0 <= i < |ts| ==> !p(ts[i].key)
    case Some(id) => exists i :: 0 <= i < |ts| && p(ts[i].key) && id == ts[i].evidence.observationId && forall j ::
      0 <= j < i ==> !p(ts[j].key)
  }

  /** Evidence of mixed keyed and unkeyed records; `firstKeyed` and `firstUnkeyed` are observation identifiers. */
  datatype AddPathAmbiguity = AddPathAmbiguity(
    stream: StreamKey,
    firstKeyed: Option<nat>,
    firstUnkeyed: Option<nat>,
    archiveIdentities: seq<string>,
    affectedStart: Option<int>,
    affectedEnd: Option<int>)

  predicate Unkeyed(k: RouteKey) { !Keyed(k) }

  function Named(name: Option<string>): seq<string> { if name.Some? then [name.value] else [] }

  /** The archive names that the transitions mention, URL before checksum, with repetitions. */
  function Mentions(ts: seq<RouteTransition>): seq<string> {
    if ts == [] then []
    else
      var t := ts[|ts| - 1];
      Mentions(ts[..|ts| - 1]) + Named(t.evidence.sourceUrl) + Named(t.evidence.archiveSha)
  }

  ghost predicate IsEvidence(a: AddPathAmbiguity, stream: StreamKey, ts: seq<RouteTransition>) {
    && a.stream == stream
    && IsFirstRecord(a.firstKeyed, ts, Keyed) && IsFirstRecord(a.firstUnkeyed, ts, Unkeyed)
    && a.archiveIdentities == FirstMentions(Mentions(ts))
    && a.affectedStart == (if ts == [] then None else Some(ts[0].Time()))
    && a.affectedEnd == (if ts == [] then None else Some(ts[|ts| - 1].Time()))
  }

  /** The least key of a stream's instances: the unkeyed one, or the smallest path identifier. */
  ghost predicate IsFirst(k: RouteKey, baseline: Instances) {
    k in baseline && forall other :: other in baseline ==> PathIdAtMost(k.pathId, other.pathId)
  }

  ghost predicate OneStream(stream: StreamKey, baseline: Instances, ts: seq<RouteTransition>) {
    && (forall k :: k in baseline ==> k.stream == stream)
    && (forall i :: 0 <= i < |ts| ==> ts[i].key.stream == stream)
  }

  function Least(xs: seq<int>): Option<int> {
    if xs == [] then None
    else match Least(xs[1..]) case Some(m) => Some(if m < xs[0] then m else xs[0]) case None => Some(xs[0])
  }

  function Greatest(xs: seq<int>): Option<int> {
    if xs == [] then None
    else match Greatest(xs[1..]) case Some(m) => Some(if m > xs[0] then m else xs[0]) case None => Some(xs[0])
  }

  function AffectedDuration(s: Sim, cooldownEnd: int): Option<int> {
    if s.findings.firstChange.None? then None
    else
      var end := if s.findings.restorationTime.Some? then s.findings.restorationTime.value else cooldownEnd;
      var secs := NumSeconds(end - s.findings.firstChange.value);
      Some(if secs > 0 then secs else 0)
  }

  /** The path of the first baseline instance, or nothing for an empty baseline. */
  ghost predicate IsBaselinePath(path: seq<U32>, baseline: Instances) {
    if baseline == map[] then path == [] else exists k :: IsFirst(k, baseline) && path == baseline[k].attributes.asPath
  }

  function FlagsOf(s: Sim, ambiguous: bool, tp: TransitPredicate): StreamFlags {
    var l := s.ledger;
    StreamFlags(
      l.restorationCount > 0 && !NotRestored(s, tp),
      NotRestored(s, tp),
      l.withdrawalCount > 1 || (l.withdrawalCount > 0 && l.restorationCount > 1),
      ambiguous)
  }

  /** The record that an end state of the simulation determines. */
  function RecordOf(
      stream: StreamKey, baselinePath: seq<U32>, instances: nat, s: Sim, ambiguous: bool, cooldownEnd: int,
      tp: TransitPredicate): StreamLifecycle
  {
    var y, l, f := s.tally, s.ledger, s.findings;
    var absences := ClosedAbsence(l.absences, l.absenceStart, cooldownEnd);
    StreamLifecycle(
      stream, baselinePath, instances, y.maxConcurrent, |y.seenInstances|, CategoryOf(s), FlagsOf(s, ambiguous, tp),
      f.firstChange, y.main, y.cooldown, Least(absences), Greatest(absences), l.withdrawalCount > 0, l.withdrawalTime,
      l.activeBeforeAbsence, l.transitAtWithdrawal, l.withdrawnInstances, l.withdrawalCount, l.restorations,
      f.replacementAppeared, f.replacementRetainedTransit, f.prependingChanged, f.finalState, f.baselineRestored,
      f.restorationTime, AffectedDuration(s, cooldownEnd))
  }

  ghost predicate Concludes(
      lc: StreamLifecycle, stream: StreamKey, baseline: Instances, s: Sim, ambiguous: bool, cooldownEnd: int,
      tp: TransitPredicate)
  {
    && IsBaselinePath(lc.baselinePath, baseline)
    && lc == RecordOf(stream, lc.baselinePath, |baseline|, s, ambiguous, cooldownEnd, tp)
  }

  ghost predicate IsLifecycle(
      lc: StreamLifecycle, stream: StreamKey, baseline: Instances, ts: seq<RouteTransition>, cooldownEnd: int,
      tp: TransitPredicate)
  {
    Concludes(lc, stream, baseline, Simulate(baseline, ts, tp), Ambiguous(baseline, ts), cooldownEnd, tp)
  }
}
