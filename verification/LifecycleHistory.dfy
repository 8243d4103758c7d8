/** What the remaining fields of a record say about the whole run: each names a moment of it. */
module LifecycleHistory {
  import opened Prelude
  import opened Seqs
  import opened Routes
  import opened Lifecycle
  import opened LifecycleProofs

  // ---- First and last moments ----

  function LastMatch(tr: seq<Moment>, p: Moment -> bool): Option<Moment> {
    if tr == [] then None
    else if p(tr[|tr| - 1]) then Some(tr[|tr| - 1])
    else LastMatch(tr[..|tr| - 1], p)
  }

  function FirstMatch(tr: seq<Moment>, p: Moment -> bool): Option<Moment> {
    if tr == [] then None else if p(tr[0]) then Some(tr[0]) else FirstMatch(tr[1..], p)
  }

  lemma {:induction false} FirstMatchSnoc(tr: seq<Moment>, m: Moment, p: Moment -> bool)
    ensures FirstMatch(tr + [m], p)
      == if FirstMatch(tr, p).Some? then FirstMatch(tr, p) else if p(m) then Some(m) else None
  {
    if tr == [] {
      assert [] + [m] == [m] && [m][1..] == [];
    } else {
      ConcatTail(tr, [m]);
      FirstMatchSnoc(tr[1..], m, p);
    }
  }

  lemma {:induction false} LastMatchSnoc(tr: seq<Moment>, m: Moment, p: Moment -> bool)
    ensures LastMatch(tr + [m], p) == if p(m) then Some(m) else LastMatch(tr, p)
  {
    assert (tr + [m])[..|tr|] == tr;
  }

  /** There is a last match exactly when there is a match, and nothing after it matches. */
  lemma {:induction false} LastMatchMeaning(tr: seq<Moment>, p: Moment -> bool)
    ensures LastMatch(tr, p).None? ==> forall i :: 0 <= i < |tr| ==> !p(tr[i])
    ensures LastMatch(tr, p).Some? ==>
      exists i :: 0 <= i < |tr| && p(tr[i]) && LastMatch(tr, p) == Some(tr[i]) && forall j :: i < j < |tr| ==> !p(tr[j])
  {
    if tr != [] && !p(tr[|tr| - 1]) {
      var init := tr[..|tr| - 1];
      LastMatchMeaning(init, p);
      assert forall i :: 0 <= i < |init| ==> init[i] == tr[i];
      if LastMatch(init, p).Some? {
        var i :| 0 <= i < |init| && p(init[i]) && LastMatch(init, p) == Some(init[i]) && forall j ::
          i < j < |init| ==> !p(init[j]);
        assert p(tr[i]) && LastMatch(tr, p) == Some(tr[i]) && forall j :: i < j < |tr| ==> !p(tr[j]);
      }
    }
  }

  lemma {:induction false} FirstMatchMeaning(tr: seq<Moment>, p: Moment -> bool)
    ensures FirstMatch(tr, p).None? ==> forall i :: 0 <= i < |tr| ==> !p(tr[i])
    ensures FirstMatch(tr, p).Some? ==>
      exists i :: 0 <= i < |tr| && p(tr[i]) && FirstMatch(tr, p) == Some(tr[i]) && forall j :: 0 <= j < i ==> !p(tr[j])
  {
    if tr != [] && !p(tr[0]) {
      var rest := tr[1..];
      FirstMatchMeaning(rest, p);
      assert forall i :: 0 <= i < |rest| ==> rest[i] == tr[i + 1];
      if FirstMatch(rest, p).Some? {
        var i :| 0 <= i < |rest| && p(rest[i]) && FirstMatch(rest, p) == Some(rest[i]) && forall j :: 0 <= j < i ==>
          !p(rest[j]);
        forall j | 0 <= j < i + 1 ensures !p(tr[j]) { assert j > 0 ==> rest[j - 1] == tr[j]; }
        assert p(tr[i + 1]) && FirstMatch(tr, p) == Some(tr[i + 1]);
      } else {
        forall j | 0 <= j < |tr| ensures !p(tr[j]) { assert j > 0 ==> rest[j - 1] == tr[j]; }
      }
    }
  }

  function TimeOfMatch(m: Option<Moment>): Option<int> {
    match m case Some(moment) => Some(moment.t.Time()) case None => None
  }

  // ---- The kinds of moments ----

  predicate IsEventChange(m: Moment) { m.t.phase.Event? }

  predicate SetsRoute(m: Moment) { Applies(m.t) }

  /** A withdrawal, or a transition that sets a route: what decides the final state. */
  predicate Settles(m: Moment) { m.t.kind.Withdrawal? || m.t.to.Some? }

  predicate ReturnsToBaseline(m: Moment) { m.t.kind.ReturnToBaseline? }

  function Restores(tp: TransitPredicate): Moment -> bool {
    (m: Moment) => Restoring(m.before, m.t, m.after, tp)
  }

  // ---- The ledger ----

  /** What the ledger keeps about the last moment at which a withdrawal left nothing. */
  ghost predicate LedgerTells(l: Ledger, tr: seq<Moment>, tp: TransitPredicate) {
    match LastMatch(tr, Empties)
    case None => l.withdrawalTime == None && l.activeBeforeAbsence == 0 && l.transitAtWithdrawal == None
    case Some(m) =>
      && l.withdrawalTime == Some(m.t.Time()) && l.activeBeforeAbsence == 1
      && l.transitAtWithdrawal == (if m.t.from.Some? then Some(Via(tp, m.t.from.value)) else None)
  }

  lemma LedgerTellsSnoc(l: Ledger, tr: seq<Moment>, m: Moment, baseline: Instances, tp: TransitPredicate)
    requires LedgerTells(l, tr, tp)
    ensures LedgerTells(Booked(l, m.before, m.t, m.after, baseline, tp), tr + [m], tp)
  {
    LastMatchSnoc(tr, m, Empties);
  }

  /** Withdrawal time, count before the absence and transit at withdrawal are those of the last emptying moment. */
  lemma {:induction false} LastWithdrawalMeaning(baseline: Instances, ts: seq<RouteTransition>, tp: TransitPredicate)
    ensures LedgerTells(LedgerAfter(baseline, ts, tp), Trace(baseline, ts), tp)
  {
    if ts != [] {
      var init, t := ts[..|ts| - 1], ts[|ts| - 1];
      LastWithdrawalMeaning(baseline, init, tp);
      var m := Moment(ActiveAfter(baseline, init), t, ActiveAfter(baseline, ts));
      LedgerTellsSnoc(LedgerAfter(baseline, init, tp), Trace(baseline, init), m, baseline, tp);
    }
  }

  /** `active_before_absence` is 1 for a withdrawn stream and 0 for any other. */
  lemma {:induction false} ActiveBeforeAbsenceMeaning(
      baseline: Instances, ts: seq<RouteTransition>, tp: TransitPredicate)
    ensures
      var l := LedgerAfter(baseline, ts, tp);
      l.activeBeforeAbsence == if l.withdrawalCount > 0 then 1 else 0
  {
    LastWithdrawalMeaning(baseline, ts, tp);
    LastMatchMeaning(Trace(baseline, ts), Empties);
    CountersMeaning(baseline, ts, tp);
    TimesPositive(Trace(baseline, ts), Empties);
  }

  lemma EmptiedSize(m: Moment)
    requires Empties(m) && m.after == Acted(m.before, m.t)
    ensures |m.before| == if WithdrawnAgain(m) then 0 else 1
  {
    forall k | k in m.before ensures k == m.t.key {
      assert k != m.t.key ==> k in m.before - {m.t.key};
    }
    if m.before != map[] {
      var k :| k in m.before;
      assert m.before.Keys == {m.t.key};
      assert |m.before.Keys| == |m.before|;
    }
  }

  /** It is the documented number, the instances before the last such moment, unless that withdrawal found none. */
  lemma {:induction false} ActiveBeforeAbsenceExactly(
      baseline: Instances, ts: seq<RouteTransition>, tp: TransitPredicate, i: nat)
    requires i < |ts| && Empties(Trace(baseline, ts)[i])
    requires forall j :: i < j < |ts| ==> !Empties(Trace(baseline, ts)[j])
    ensures LedgerAfter(baseline, ts, tp).activeBeforeAbsence == |ActiveAfter(baseline, ts[..i])|
      <==> ActiveAfter(baseline, ts[..i]) != map[]
  {
    var tr := Trace(baseline, ts);
    LastWithdrawalMeaning(baseline, ts, tp);
    LastMatchMeaning(tr, Empties);
    TraceAt(baseline, ts, i);
    assert ts[..i + 1][..i] == ts[..i];
    EmptiedSize(tr[i]);
  }

  lemma {:induction false} WithdrawnSnoc(
      l: Ledger, init: seq<RouteTransition>, t: RouteTransition, before: Instances, after: Instances,
      baseline: Instances, tp: TransitPredicate)
    requires l.withdrawnInstances == Map(Filter(init, IsWithdrawal), KeyOf)
    ensures Booked(l, before, t, after, baseline, tp).withdrawnInstances == Map(Filter(init + [t], IsWithdrawal), KeyOf)
  {
    FilterSnoc(init, t, IsWithdrawal);
    MapSnoc(Filter(init, IsWithdrawal), t, KeyOf);
  }

  /** Every withdrawal is listed, whether or not the instance was active. */
  lemma {:induction false} WithdrawnInstancesMeaning(
      baseline: Instances, ts: seq<RouteTransition>, tp: TransitPredicate)
    ensures LedgerAfter(baseline, ts, tp).withdrawnInstances == Map(Filter(ts, IsWithdrawal), KeyOf)
  {
    if ts != [] {
      var init, t := ts[..|ts| - 1], ts[|ts| - 1];
      WithdrawnInstancesMeaning(baseline, init, tp);
      assert ts == init + [t];
      WithdrawnSnoc(LedgerAfter(baseline, init, tp), init, t, ActiveAfter(baseline, init), ActiveAfter(baseline, ts),
        baseline, tp);
    }
  }

  function KeyOf(t: RouteTransition): RouteKey { t.key }

  // ---- The findings ----

  ghost predicate FindingsTell(f: Findings, tr: seq<Moment>, tp: TransitPredicate) {
    && f.firstChange == TimeOfMatch(FirstMatch(tr, IsEventChange))
    && f.restorationTime == TimeOfMatch(FirstMatch(tr, Restores(tp)))
    && (f.replacementAppeared <==> FirstMatch(tr, SetsRoute).Some?)
    && (f.baselineRestored <==> FirstMatch(tr, ReturnsToBaseline).Some?)
  }

  ghost predicate FinalStateTells(f: Findings, tr: seq<Moment>) {
    f.finalState
      == match LastMatch(tr, Settles) case Some(m) => (if m.t.kind.Withdrawal? then None else m.t.to) case None => None
  }

  ghost predicate ReplacementTells(f: Findings, tr: seq<Moment>, tp: TransitPredicate) {
    f.replacementRetainedTransit
      == match FirstMatch(tr, SetsRoute) case Some(m) => Some(SetsVia(m.t, tp)) case None => None
  }

  lemma FindingsTellSnoc(
      f: Findings, tr: seq<Moment>, m: Moment, marks: set<StreamCategory>, via: bool, tp: TransitPredicate)
    requires FindingsTell(f, tr, tp)
    ensures FindingsTell(Found(f, m.t, marks, Restoring(m.before, m.t, m.after, tp), via), tr + [m], tp)
  {
    FirstMatchSnoc(tr, m, IsEventChange);
    FirstMatchSnoc(tr, m, Restores(tp));
    FirstMatchSnoc(tr, m, SetsRoute);
    FirstMatchSnoc(tr, m, ReturnsToBaseline);
  }

  lemma FinalStateSnoc(f: Findings, tr: seq<Moment>, m: Moment, marks: set<StreamCategory>, restoring: bool, via: bool)
    requires FinalStateTells(f, tr)
    ensures FinalStateTells(Found(f, m.t, marks, restoring, via), tr + [m])
  {
    LastMatchSnoc(tr, m, Settles);
  }

  lemma ReplacementSnoc(
      f: Findings, tr: seq<Moment>, m: Moment, marks: set<StreamCategory>, restoring: bool, tp: TransitPredicate)
    requires ReplacementTells(f, tr, tp)
    ensures ReplacementTells(Found(f, m.t, marks, restoring, SetsVia(m.t, tp)), tr + [m], tp)
  {
    FirstMatchSnoc(tr, m, SetsRoute);
  }

  /**
   * First change and restoration time are the times of the first event transition and the
   * first restoring moment; the replacement is the first route set; the final state is
   * what the last withdrawal or route left.
   */
  lemma {:induction false} FindingsMeaning(baseline: Instances, ts: seq<RouteTransition>, tp: TransitPredicate)
    ensures FindingsTell(FindingsAfter(baseline, ts, tp), Trace(baseline, ts), tp)
    ensures FinalStateTells(FindingsAfter(baseline, ts, tp), Trace(baseline, ts))
    ensures ReplacementTells(FindingsAfter(baseline, ts, tp), Trace(baseline, ts), tp)
  {
    if ts != [] {
      var init, t := ts[..|ts| - 1], ts[|ts| - 1];
      FindingsMeaning(baseline, init, tp);
      var before, after := ActiveAfter(baseline, init), ActiveAfter(baseline, ts);
      var m, f, tr := Moment(before, t, after), FindingsAfter(baseline, init, tp), Trace(baseline, init);
      var marks := MarkedBy(t, after, tp);
      FindingsTellSnoc(f, tr, m, marks, SetsVia(t, tp), tp);
      FinalStateSnoc(f, tr, m, marks, Restoring(before, t, after, tp), SetsVia(t, tp));
      ReplacementSnoc(f, tr, m, marks, Restoring(before, t, after, tp), tp);
    }
  }

  /** A final withdrawal clears the final state, even if other instances stay active. */
  lemma {:induction false} FinalStateForgetsOthers(baseline: Instances, ts: seq<RouteTransition>, tp: TransitPredicate)
    requires ts != [] && ts[|ts| - 1].kind.Withdrawal?
    ensures FindingsAfter(baseline, ts, tp).finalState == None
    ensures ActiveAfter(baseline, ts) == ActiveAfter(baseline, ts[..|ts| - 1]) - {ts[|ts| - 1].key}
  {
  }

  /** What is documented: a final state exactly when some instance is active at the end. */
  ghost predicate FinalStateAsDocumented(baseline: Instances, ts: seq<RouteTransition>, tp: TransitPredicate) {
    FindingsAfter(baseline, ts, tp).finalState.Some? <==> ActiveAfter(baseline, ts) != map[]
  }

  predicate LeavesNothing(m: Moment) { m.after == map[] }

  /**
   * So it is if and only if the last transition that settles anything is a route, or leaves nothing;
   * without one, if the baseline is empty.
   */
  lemma {:induction false} FinalStateTellsExactly(baseline: Instances, ts: seq<RouteTransition>, tp: TransitPredicate)
    ensures FinalStateAsDocumented(baseline, ts, tp) <==>
      match LastMatch(Trace(baseline, ts), Settles)
      case Some(m) => m.t.kind.Withdrawal? ==> LeavesNothing(m)
      case None => baseline == map[]
  {
    FindingsMeaning(baseline, ts, tp);
    SettledLast(baseline, ts);
  }

  /** Nothing happens to the active instances after the last transition that settles anything. */
  lemma {:induction false} SettledLast(baseline: Instances, ts: seq<RouteTransition>)
    ensures
      match LastMatch(Trace(baseline, ts), Settles)
      case Some(m) => ActiveAfter(baseline, ts) == m.after
        && (m.t.kind.Withdrawal? || (m.t.to.Some? && m.after != map[]))
      case None => ActiveAfter(baseline, ts) == baseline
  {
    if ts != [] {
      var init, t := ts[..|ts| - 1], ts[|ts| - 1];
      SettledLast(baseline, init);
      LastMatchSnoc(Trace(baseline, init), Moment(ActiveAfter(baseline, init), t, ActiveAfter(baseline, ts)), Settles);
      assert Applies(t) ==> t.key in ActiveAfter(baseline, ts);
    }
  }

  // ---- Extremes and durations ----

  lemma {:induction false} ExtremesMeaning(xs: seq<int>)
    ensures xs == [] <==> Least(xs).None?
    ensures xs == [] <==> Greatest(xs).None?
    ensures xs != [] ==> Least(xs).value in xs && forall x :: x in xs ==> Least(xs).value <= x
    ensures xs != [] ==> Greatest(xs).value in xs && forall x :: x in xs ==> x <= Greatest(xs).value
  {
    if xs != [] {
      ExtremesMeaning(xs[1..]);
      assert forall x :: x in xs <==> x == xs[0] || x in xs[1..];
    }
  }

  /** From the first event change to the first restoring moment, or to the end; never negative. */
  ghost predicate DurationTells(d: Option<int>, tr: seq<Moment>, tp: TransitPredicate, cooldownEnd: int) {
    match FirstMatch(tr, IsEventChange)
    case None => d == None
    case Some(m) =>
      var end := match FirstMatch(tr, Restores(tp)) case Some(r) => r.t.Time() case None => cooldownEnd;
      && d.Some? && d.value >= 0
      && (end >= m.t.Time() ==> d.value * NANOS <= end - m.t.Time() < (d.value + 1) * NANOS)
      && (end <= m.t.Time() ==> d.value == 0)
  }

  lemma {:induction false} AffectedDurationMeaning(
      baseline: Instances, ts: seq<RouteTransition>, tp: TransitPredicate, cooldownEnd: int)
    ensures DurationTells(AffectedDuration(Simulate(baseline, ts, tp), cooldownEnd), Trace(baseline, ts), tp,
      cooldownEnd)
  {
    FindingsMeaning(baseline, ts, tp);
  }

  // ---- The record ----

  /** The fields of a record as moments of its stream's run. */
  ghost predicate RecordTells(lc: StreamLifecycle, tr: seq<Moment>, tp: TransitPredicate) {
    && lc.firstChange == TimeOfMatch(FirstMatch(tr, IsEventChange))
    && lc.restorationTime == TimeOfMatch(FirstMatch(tr, Restores(tp)))
    && lc.streamWithdrawalTime == TimeOfMatch(LastMatch(tr, Empties))
    && (lc.replacementAppeared <==> FirstMatch(tr, SetsRoute).Some?)
    && (lc.baselineRestored <==> FirstMatch(tr, ReturnsToBaseline).Some?)
    && lc.activeBeforeAbsence == (if lc.wasWithdrawn then 1 else 0)
  }

  /** The fields that hold routes and keys. */
  ghost predicate RoutesTell(lc: StreamLifecycle, baseline: Instances, ts: seq<RouteTransition>, tp: TransitPredicate) {
    var tr := Trace(baseline, ts);
    && lc.finalState == (match LastMatch(tr, Settles)
         case Some(m) => (if m.t.kind.Withdrawal? then None else m.t.to)
         case None => None)
    && lc.replacementRetainedTransit == (match FirstMatch(tr, SetsRoute)
         case Some(m) => Some(SetsVia(m.t, tp))
         case None => None)
    && lc.transitAtWithdrawal == (match LastMatch(tr, Empties)
         case Some(m) => (if m.t.from.Some? then Some(Via(tp, m.t.from.value)) else None)
         case None => None)
    && lc.withdrawnInstances == Map(Filter(ts, IsWithdrawal), KeyOf)
  }

  lemma ConclusionFields(
      lc: StreamLifecycle, stream: StreamKey, baseline: Instances, s: Sim, ambiguous: bool, cooldownEnd: int,
      tp: TransitPredicate)
    requires Concludes(lc, stream, baseline, s, ambiguous, cooldownEnd, tp)
    ensures lc.firstChange == s.findings.firstChange && lc.restorationTime == s.findings.restorationTime
    ensures lc.replacementAppeared == s.findings.replacementAppeared
      && lc.baselineRestored == s.findings.baselineRestored
    ensures lc.streamWithdrawalTime == s.ledger.withdrawalTime && lc.activeBeforeAbsence == s.ledger.activeBeforeAbsence
    ensures lc.wasWithdrawn == (s.ledger.withdrawalCount > 0)
  {
  }

  lemma ConclusionRoutes(
      lc: StreamLifecycle, stream: StreamKey, baseline: Instances, s: Sim, ambiguous: bool, cooldownEnd: int,
      tp: TransitPredicate)
    requires Concludes(lc, stream, baseline, s, ambiguous, cooldownEnd, tp)
    ensures lc.finalState == s.findings.finalState
      && lc.replacementRetainedTransit == s.findings.replacementRetainedTransit
    ensures lc.transitAtWithdrawal == s.ledger.transitAtWithdrawal
      && lc.withdrawnInstances == s.ledger.withdrawnInstances
  {
  }

  lemma ConclusionDurations(
      lc: StreamLifecycle, stream: StreamKey, baseline: Instances, s: Sim, ambiguous: bool, cooldownEnd: int,
      tp: TransitPredicate)
    requires Concludes(lc, stream, baseline, s, ambiguous, cooldownEnd, tp)
    ensures
      var absences := ClosedAbsence(s.ledger.absences, s.ledger.absenceStart, cooldownEnd);
      lc.minAbsenceSecs == Least(absences) && lc.maxAbsenceSecs == Greatest(absences)
    ensures lc.affectedDurationSecs == AffectedDuration(s, cooldownEnd)
    ensures lc.wasWithdrawn == (s.ledger.withdrawalCount > 0)
  {
  }

  /** Times and findings of a record, read off its run. */
  lemma {:induction false} RecordMeaning(
      lc: StreamLifecycle, stream: StreamKey, baseline: Instances, ts: seq<RouteTransition>, cooldownEnd: int,
      tp: TransitPredicate)
    requires IsLifecycle(lc, stream, baseline, ts, cooldownEnd, tp)
    ensures RecordTells(lc, Trace(baseline, ts), tp)
  {
    ConclusionFields(lc, stream, baseline, Simulate(baseline, ts, tp), Ambiguous(baseline, ts), cooldownEnd, tp);
    FindingsMeaning(baseline, ts, tp);
    LastWithdrawalMeaning(baseline, ts, tp);
    ActiveBeforeAbsenceMeaning(baseline, ts, tp);
  }

  /** Its final state, replacement, transit at withdrawal and withdrawn instances. */
  lemma {:induction false} RecordRoutesMeaning(
      lc: StreamLifecycle, stream: StreamKey, baseline: Instances, ts: seq<RouteTransition>, cooldownEnd: int,
      tp: TransitPredicate)
    requires IsLifecycle(lc, stream, baseline, ts, cooldownEnd, tp)
    ensures RoutesTell(lc, baseline, ts, tp)
  {
    ConclusionRoutes(lc, stream, baseline, Simulate(baseline, ts, tp), Ambiguous(baseline, ts), cooldownEnd, tp);
    FindingsMeaning(baseline, ts, tp);
    LastWithdrawalMeaning(baseline, ts, tp);
    WithdrawnInstancesMeaning(baseline, ts, tp);
  }
}
