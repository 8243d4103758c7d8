/** `build_one_lifecycle` and its helpers as the loops they are, proved to compute the simulation. */
module LifecycleBuilder {
  import opened Prelude
  import opened Seqs
  import opened Sorting
  import opened Routes
  import opened Fingerprint
  import opened Lifecycle

  // ---- Restoration classification ----

  /** The fingerprints of all instances, in no particular order. */
  method Fingerprints(m: Instances) returns (fps: seq<string>)
    ensures forall fp :: multiset(fps)[fp] == FingerprintCount(m, fp)
  {
    fps := [];
    ghost var all := FingerprintsOf(m);
    var todo := m.Keys;
    forall fp { CountNothing(all, fp); }
    while todo != {}
      invariant todo <= m.Keys
      invariant forall fp :: multiset(fps)[fp] == CountValue(all - todo, fp)
    {
      var k :| k in todo;
      forall fp { CountOneMore(all, todo, k, fp); }
      fps := fps + [SemanticFingerprint(m[k].attributes)];
      todo := todo - {k};
    }
    assert all - {} == all;
  }

  lemma CountNothing<K, V>(m: map<K, V>, v: V)
    ensures CountValue(m - m.Keys, v) == 0
  {
    var none := m - m.Keys;
    assert (set k | k in none && none[k] == v) == {};
  }

  lemma CountOneMore<K, V>(m: map<K, V>, todo: set<K>, k: K, v: V)
    requires k in m && k in todo
    ensures CountValue(m - (todo - {k}), v) == CountValue(m - todo, v) + One(m[k] == v)
  {
    var less, more := m - todo, m - (todo - {k});
    var a, b := set x | x in less && less[x] == v, set x | x in more && more[x] == v;
    assert k !in a;
    if m[k] == v { assert b == a + {k}; } else { assert b == a; }
  }

  lemma CountsDecideMultisets(xs: seq<string>, ys: seq<string>)
    ensures multiset(xs) == multiset(ys) <==> forall fp :: multiset(xs)[fp] == multiset(ys)[fp]
  {
  }

  /** Sort both fingerprint vectors and compare them. */
  method FingerprintsMatch(baseline: Instances, active: Instances) returns (same: bool)
    ensures same <==> SameFingerprints(baseline, active)
  {
    var baselineFps := Fingerprints(baseline);
    var activeFps := Fingerprints(active);
    CommunitiesCompareAsMultisets(baselineFps, activeFps);
    CountsDecideMultisets(baselineFps, activeFps);
    same := SortBy(baselineFps, StringAtMost) == SortBy(activeFps, StringAtMost);
  }

  method ClassifyRestoration(
      t: RouteTransition, history: seq<(RouteKey, RouteState)>, baseline: Instances, active: Instances)
    returns (r: StreamRestoration)
    ensures r == Classified(t, history, baseline, active)
  {
    var baselineSet := FingerprintsMatch(baseline, active);
    r := StreamRestoration(
      t.Time(), OldPathIds(history), [t.key.pathId], ExactInstance(t, history, baseline), EquivalentRoute(t, baseline),
      true, baselineSet);
  }

  // ---- Path-identifier ambiguity ----

  /** Scan the baseline keys for keyed and for unkeyed instances. */
  method ScanBaseline(baseline: Instances) returns (keyed: bool, unkeyed: bool)
    ensures keyed <==> exists k :: k in baseline && Keyed(k)
    ensures unkeyed <==> exists k :: k in baseline && !Keyed(k)
  {
    keyed, unkeyed := false, false;
    var todo := baseline.Keys;
    while todo != {}
      invariant todo <= baseline.Keys
      invariant keyed <==> exists k :: k in baseline && k !in todo && Keyed(k)
      invariant unkeyed <==> exists k :: k in baseline && k !in todo && !Keyed(k)
    {
      var k :| k in todo;
      if Keyed(k) { keyed := true; } else { unkeyed := true; }
      todo := todo - {k};
    }
  }

  /** The first keyed and the first unkeyed record of the transitions. */
  method FirstRecords(ts: seq<RouteTransition>) returns (keyed: Option<nat>, unkeyed: Option<nat>)
    ensures IsFirstRecord(keyed, ts, Keyed) && IsFirstRecord(unkeyed, ts, Unkeyed)
  {
    keyed, unkeyed := None, None;
    for i := 0 to |ts|
      invariant IsFirstRecord(keyed, ts[..i], Keyed) && IsFirstRecord(unkeyed, ts[..i], Unkeyed)
    {
      FirstRecordSnoc(keyed, ts, i, Keyed);
      FirstRecordSnoc(unkeyed, ts, i, Unkeyed);
      if Keyed(ts[i].key) {
        if keyed.None? { keyed := Some(ts[i].evidence.observationId); }
      } else if unkeyed.None? {
        unkeyed := Some(ts[i].evidence.observationId);
      }
    }
    assert ts[..|ts|] == ts;
  }

  lemma FirstRecordSnoc(o: Option<nat>, ts: seq<RouteTransition>, i: nat, p: RouteKey -> bool)
    requires i < |ts| && IsFirstRecord(o, ts[..i], p)
    ensures IsFirstRecord(if o.None? && p(ts[i].key) then Some(ts[i].evidence.observationId) else o, ts[..i + 1], p)
  {
    var less, more := ts[..i], ts[..i + 1];
    assert more[i] == ts[i] && forall j :: 0 <= j < i ==> more[j] == less[j];
  }

  method AddIdentity(
      identities: seq<string>, name: Option<string>, ghost mentioned: seq<string>)
    returns (more: seq<string>)
    requires identities == FirstMentions(mentioned)
    ensures more == FirstMentions(mentioned + Named(name))
  {
    more := identities;
    FirstMentionsMeaning(mentioned);
    if name.Some? {
      assert (mentioned + [name.value])[..|mentioned|] == mentioned;
      if name.value !in identities { more := more + [name.value]; }
    } else {
      assert mentioned + [] == mentioned;
    }
  }

  /** The archives behind the transitions, each once, in the order they are met. */
  method ArchiveIdentities(ts: seq<RouteTransition>) returns (identities: seq<string>)
    ensures identities == FirstMentions(Mentions(ts))
  {
    identities := [];
    for i := 0 to |ts|
      invariant identities == FirstMentions(Mentions(ts[..i]))
    {
      ghost var mentioned := Mentions(ts[..i]);
      assert ts[..i + 1][..i] == ts[..i];
      identities := AddIdentity(identities, ts[i].evidence.sourceUrl, mentioned);
      identities := AddIdentity(identities, ts[i].evidence.archiveSha, mentioned + Named(ts[i].evidence.sourceUrl));
    }
    assert ts[..|ts|] == ts;
  }

  /** Keyed and unkeyed records both occur: the stream is ambiguous, with the first of each as evidence. */
  method DetectStreamAmbiguity(stream: StreamKey, baseline: Instances, ts: seq<RouteTransition>)
    returns (ambiguity: Option<AddPathAmbiguity>)
    ensures ambiguity.Some? <==> Ambiguous(baseline, ts)
    ensures ambiguity.Some? ==> IsEvidence(ambiguity.value, stream, ts)
  {
    var keyedBaseline, unkeyedBaseline := ScanBaseline(baseline);
    var keyed, unkeyed := FirstRecords(ts);
    var identities := ArchiveIdentities(ts);
    if !((keyedBaseline || keyed.Some?) && (unkeyedBaseline || unkeyed.Some?)) {
      return None;
    }
    var n := |ts|;
    return Some(AddPathAmbiguity(
      stream, keyed, unkeyed, identities,
      if n == 0 then None else Some(ts[0].Time()),
      if n == 0 then None else Some(ts[n - 1].Time())));
  }

  method FirstBaselinePath(stream: StreamKey, baseline: Instances) returns (path: seq<U32>)
    requires forall k :: k in baseline ==> k.stream == stream
    ensures IsBaselinePath(path, baseline)
  {
    if baseline == map[] {
      return [];
    }
    var first :| first in baseline;
    var todo := baseline.Keys - {first};
    while todo != {}
      invariant todo <= baseline.Keys && first in baseline
      invariant forall k :: k in baseline && k !in todo ==> PathIdAtMost(first.pathId, k.pathId)
    {
      var k :| k in todo;
      if PathIdAtMost(k.pathId, first.pathId) { first := k; }
      todo := todo - {k};
    }
    path := baseline[first].attributes.asPath;
  }

  method Extremes(xs: seq<int>) returns (least: Option<int>, greatest: Option<int>)
    ensures least == Least(xs) && greatest == Greatest(xs)
  {
    least, greatest := None, None;
    for i := |xs| downto 0
      invariant least == Least(xs[i..]) && greatest == Greatest(xs[i..])
    {
      assert xs[i..][1..] == xs[i + 1..];
      least := if least.Some? && least.value < xs[i] then least else Some(xs[i]);
      greatest := if greatest.Some? && greatest.value > xs[i] then greatest else Some(xs[i]);
    }
    assert xs[0..] == xs;
  }

  // ---- One transition of the simulation loop ----

  /** List the transition, and count the instance that a route sets. */
  method UpdateTally(tally: Tally, t: RouteTransition, active: Instances, tp: TransitPredicate) returns (next: Tally)
    ensures next == Counted(tally, t, active, tp)
  {
    next := tally;
    if t.phase.Cooldown? {
      next := next.(cooldown := next.cooldown + [Described(t, tp)]);
    } else {
      next := next.(main := next.main + [Described(t, tp)]);
    }
    if !t.kind.Withdrawal? && t.to.Some? {
      next := next.(seenInstances := next.seenInstances + {t.key});
      if |active| > next.maxConcurrent {
        next := next.(maxConcurrent := |active|);
      }
    }
  }

  /** Book a withdrawal, and the absence if it was the last instance. */
  method BookWithdrawal(ledger: Ledger, t: RouteTransition, active: Instances, tp: TransitPredicate)
    returns (next: Ledger)
    ensures next == Lost(ledger, t, active, tp)
  {
    next := ledger.(withdrawnInstances := ledger.withdrawnInstances + [t.key]);
    if t.from.Some? {
      next := next.(withdrawnHistory := next.withdrawnHistory + [(t.key, t.from.value)]);
    }
    if active == map[] {
      next := next.(withdrawalCount := next.withdrawalCount + 1);
      if next.absenceStart.None? {
        next := next.(absenceStart := Some(t.Time()));
      }
      next := next.(
        withdrawalTime := Some(t.Time()),
        activeBeforeAbsence := |active| + 1,
        transitAtWithdrawal := if t.from.Some? then Some(Via(tp, t.from.value)) else None);
    }
  }

  /** Close the absence of a stream that is visible again, and classify the restoration. */
  method BookRestoration(ledger: Ledger, t: RouteTransition, active: Instances, baseline: Instances)
    returns (next: Ledger)
    ensures next == Regained(ledger, t, active, baseline)
  {
    next := ledger;
    if next.absenceStart.Some? {
      var duration := NumSeconds(t.Time() - next.absenceStart.value);
      if duration > 0 {
        next := next.(absences := next.absences + [duration]);
      }
      next := next.(absenceStart := None);
    }
    next := next.(restorationCount := next.restorationCount + 1);
    var restoration := ClassifyRestoration(t, next.withdrawnHistory, baseline, active);
    next := next.(restorations := next.restorations + [restoration], withdrawnHistory := []);
  }

  /** The shape of a material path replacement, and visibility off transit, put categories into the set. */
  method MarkCategories(before: Instances, t: RouteTransition, active: Instances, tp: TransitPredicate)
    returns (marks: set<StreamCategory>, restoring: bool)
    ensures marks == MarkedBy(t, active, tp)
    ensures restoring == Restoring(before, t, active, tp)
  {
    marks, restoring := {}, before == map[] && active != map[];
    var shape := ShapeOf(t, tp);
    if shape == Some(PrependReduced) || shape == Some(PrependIncreased) {
      marks := marks + {PrependOnly};
    } else if shape == Some(PathChangedStillViaRequiredTransit) {
      marks := marks + {PathChangedStillViaTransit};
    } else if shape == Some(PathDepartedRequiredTransit) {
      marks := marks + {DepartedTransitPath};
    } else if shape == Some(PathReturnedToRequiredTransit) {
      restoring := true;
    }
    if active != map[] && !AnyMatching(active, tp) {
      marks := marks + {DepartedTransitPath};
    }
  }

  /** Accumulate the evidence for the category, the times and the final state. */
  method UpdateFindings(findings: Findings, t: RouteTransition, marks: set<StreamCategory>, restoring: bool, via: bool)
    returns (next: Findings)
    ensures next == Found(findings, t, marks, restoring, via)
  {
    next := findings.(seenCategories := findings.seenCategories + marks);
    if t.phase.Event? && next.firstChange.None? {
      next := next.(firstChange := Some(t.Time()));
    }
    if t.kind.Withdrawal? {
      next := next.(finalState := None);
    } else if t.to.Some? {
      next := next.(finalState := t.to, replacementAppeared := true);
      if next.replacementRetainedTransit.None? {
        next := next.(replacementRetainedTransit := Some(via));
      }
    }
    if PrependOnly in marks {
      next := next.(prependingChanged := true);
    }
    if restoring && next.restorationTime.None? {
      next := next.(restorationTime := Some(t.Time()));
    }
    if t.kind.ReturnToBaseline? {
      next := next.(baselineRestored := true);
    }
  }

  // ---- The loop ----

  /** What the transition does to the active instances, and the absence or restoration it brings. */
  method ActAndBook(before: Instances, booked: Ledger, t: RouteTransition, baseline: Instances, tp: TransitPredicate)
    returns (active: Instances, ledger: Ledger)
    ensures active == Acted(before, t)
    ensures ledger == Booked(booked, before, t, active, baseline, tp)
  {
    active, ledger := before, booked;
    var wasVisible := active != map[];
    if t.kind.Withdrawal? {
      active := active - {t.key};
      ledger := BookWithdrawal(ledger, t, active, tp);
    } else if t.to.Some? {
      active := active[t.key := t.to.value];
    }
    if !wasVisible && active != map[] {
      ledger := BookRestoration(ledger, t, active, baseline);
    }
  }

  /** One transition: the active instances first, then everything that depends on them. */
  method Advance(s: Sim, t: RouteTransition, baseline: Instances, tp: TransitPredicate) returns (next: Sim)
    ensures next.active == Acted(s.active, t)
    ensures next.tally == Counted(s.tally, t, next.active, tp)
    ensures next.ledger == Booked(s.ledger, s.active, t, next.active, baseline, tp)
    ensures next.findings
      == Found(s.findings, t, MarkedBy(t, next.active, tp), Restoring(s.active, t, next.active, tp), SetsVia(t, tp))
  {
    var active, ledger := ActAndBook(s.active, s.ledger, t, baseline, tp);
    var tally := UpdateTally(s.tally, t, active, tp);
    var marks, restoring := MarkCategories(s.active, t, active, tp);
    var findings := UpdateFindings(s.findings, t, marks, restoring, SetsVia(t, tp));
    next := Sim(active, tally, ledger, findings);
  }

  method BuildOneLifecycle(
      stream: StreamKey, baseline: Instances, ts: seq<RouteTransition>, cooldownEnd: int, tp: TransitPredicate)
    returns (lc: StreamLifecycle)
    requires OneStream(stream, baseline, ts)
    ensures IsLifecycle(lc, stream, baseline, ts, cooldownEnd, tp)
  {
    var s := Sim(baseline, Tally(|baseline|, baseline.Keys, [], []), NO_ABSENCE, NO_FINDINGS);
    for i := 0 to |ts|
      invariant s == Simulate(baseline, ts[..i], tp)
    {
      s := Advance(s, ts[i], baseline, tp);
      assert ts[..i + 1][..i] == ts[..i];
    }
    assert ts[..|ts|] == ts;
    var ambiguity := DetectStreamAmbiguity(stream, baseline, ts);
    lc := Conclude(stream, baseline, s, ambiguity.Some?, cooldownEnd, tp);
  }

  /** Withdrawal outranks departure, departure a changed path, and that mere prepending. */
  method DecideCategory(s: Sim) returns (category: StreamCategory)
    ensures category == CategoryOf(s)
  {
    category := Unchanged;
    var seen := s.findings.seenCategories;
    if s.ledger.withdrawalCount > 0 { category := Withdrawn; }
    else if DepartedTransitPath in seen { category := DepartedTransitPath; }
    else if PathChangedStillViaTransit in seen { category := PathChangedStillViaTransit; }
    else if PrependOnly in seen { category := PrependOnly; }
  }

  method DecideFlags(s: Sim, ambiguous: bool, tp: TransitPredicate) returns (flags: StreamFlags)
    ensures flags == FlagsOf(s, ambiguous, tp)
  {
    var withdrawals, restorations := s.ledger.withdrawalCount, s.ledger.restorationCount;
    var endedAbsent := s.active == map[] && withdrawals > 0;
    var endedDeparted :=
      s.active != map[] && !AnyMatching(s.active, tp) && DepartedTransitPath in s.findings.seenCategories;
    var notRestored := endedAbsent || endedDeparted;
    flags := StreamFlags(
      restorations > 0 && !notRestored, notRestored, withdrawals > 1 || (withdrawals > 0 && restorations > 1),
      ambiguous);
  }

  /** Close an absence that is still open, then find the shortest and the longest. */
  method AbsenceExtremes(ledger: Ledger, cooldownEnd: int) returns (least: Option<int>, greatest: Option<int>)
    ensures least == Least(ClosedAbsence(ledger.absences, ledger.absenceStart, cooldownEnd))
    ensures greatest == Greatest(ClosedAbsence(ledger.absences, ledger.absenceStart, cooldownEnd))
  {
    var absences := ledger.absences;
    if ledger.absenceStart.Some? {
      var duration := NumSeconds(cooldownEnd - ledger.absenceStart.value);
      if duration > 0 {
        absences := absences + [duration];
      }
    }
    least, greatest := Extremes(absences);
  }

  /** Category, flags and durations from the end state. */
  method Conclude(
      stream: StreamKey, baseline: Instances, s: Sim, ambiguous: bool, cooldownEnd: int, tp: TransitPredicate)
    returns (lc: StreamLifecycle)
    requires forall k :: k in baseline ==> k.stream == stream
    ensures Concludes(lc, stream, baseline, s, ambiguous, cooldownEnd, tp)
  {
    var tally, ledger, findings := s.tally, s.ledger, s.findings;
    var least, greatest := AbsenceExtremes(ledger, cooldownEnd);
    var category := DecideCategory(s);
    var flags := DecideFlags(s, ambiguous, tp);
    var baselinePath := FirstBaselinePath(stream, baseline);
    lc := StreamLifecycle(
      stream, baselinePath, |baseline|, tally.maxConcurrent, |tally.seenInstances|, category, flags,
      findings.firstChange, tally.main, tally.cooldown, least, greatest,
      ledger.withdrawalCount > 0, ledger.withdrawalTime, ledger.activeBeforeAbsence, ledger.transitAtWithdrawal,
      ledger.withdrawnInstances, ledger.withdrawalCount, ledger.restorations,
      findings.replacementAppeared, findings.replacementRetainedTransit, findings.prependingChanged,
      findings.finalState, findings.baselineRestored, findings.restorationTime, AffectedDuration(s, cooldownEnd));
  }
}
