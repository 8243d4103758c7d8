/** When a stream is absent: which stretches of its run count, and how long they last. */
module Absences {
  import opened Prelude
  import opened Seqs
  import opened Routes
  import opened Lifecycle
  import opened LifecycleProofs
  import opened LifecycleHistory
  import opened Departures

  // ---- Stretches of a run ----

  /** From the withdrawal at index `from` to the return at index `to`, or to the end of the run. */
  datatype Absence = Absence(from: nat, to: nat)

  predicate NoReturn(tr: seq<Moment>, i: int, j: int) {
    0 <= i <= j <= |tr| && forall k :: i <= k < j ==> !ComesBack(tr[k])
  }

  /** A withdrawal that leaves nothing; if an earlier one did, the stream came back in between. */
  ghost predicate Begins(tr: seq<Moment>, i: int) {
    && 0 <= i < |tr| && Empties(tr[i])
    && forall k :: 0 <= k < i && Empties(tr[k]) ==> !NoReturn(tr, k, i)
  }

  ghost predicate IsAbsence(tr: seq<Moment>, i: int, j: int) {
    i < j && Begins(tr, i) && NoReturn(tr, i, j) && (j < |tr| ==> ComesBack(tr[j]))
  }

  /** Where the absence that is still open began. */
  function OpenSince(tr: seq<Moment>): Option<nat> {
    if tr == [] then None
    else
      var n := |tr| - 1;
      if ComesBack(tr[n]) then None
      else if OpenSince(tr[..n]).Some? then OpenSince(tr[..n])
      else if Empties(tr[n]) then Some(n)
      else None
  }

  function Ended(tr: seq<Moment>): seq<Absence> {
    if tr == [] then []
    else
      var n := |tr| - 1;
      var open := OpenSince(tr[..n]);
      Ended(tr[..n]) + if ComesBack(tr[n]) && open.Some? then [Absence(open.value, n)] else []
  }

  function AbsencesOf(tr: seq<Moment>): seq<Absence> {
    Ended(tr) + if OpenSince(tr).Some? then [Absence(OpenSince(tr).value, |tr|)] else []
  }

  lemma PrefixNoReturn(tr: seq<Moment>, n: nat, i: int, j: int)
    requires n <= |tr| && j <= n
    ensures NoReturn(tr[..n], i, j) <==> NoReturn(tr, i, j)
  {
    if 0 <= i <= j {
      assert forall k :: i <= k < j ==> tr[..n][k] == tr[k];
    }
  }

  lemma PrefixBegins(tr: seq<Moment>, n: nat, i: int)
    requires n <= |tr| && i < n
    ensures Begins(tr[..n], i) <==> Begins(tr, i)
  {
    forall k | 0 <= k < i ensures NoReturn(tr[..n], k, i) <==> NoReturn(tr, k, i) {
      PrefixNoReturn(tr, n, k, i);
    }
  }

  lemma PrefixAbsence(tr: seq<Moment>, n: nat, i: int, j: int)
    requires n <= |tr| && j <= n
    ensures IsAbsence(tr, i, j) <==> IsAbsence(tr[..n], i, j) && (j == n < |tr| ==> ComesBack(tr[n]))
  {
    if i < j {
      PrefixBegins(tr, n, i);
      PrefixNoReturn(tr, n, i, j);
    }
  }

  lemma {:induction false} OpenMeaning(tr: seq<Moment>)
    ensures OpenSince(tr).None? ==> forall k :: 0 <= k < |tr| && Empties(tr[k]) ==> !NoReturn(tr, k, |tr|)
    ensures OpenSince(tr).Some? ==> IsAbsence(tr, OpenSince(tr).value, |tr|)
  {
    if tr != [] {
      var n := |tr| - 1;
      OpenMeaning(tr[..n]);
      if OpenSince(tr).None? {
        forall k | 0 <= k < |tr| && Empties(tr[k]) ensures !NoReturn(tr, k, |tr|) {
          PrefixNoReturn(tr, n, k, n);
        }
      } else if OpenSince(tr[..n]).Some? {
        var i := OpenSince(tr).value;
        PrefixBegins(tr, n, i);
        PrefixNoReturn(tr, n, i, n);
      } else {
        forall k | 0 <= k < n && Empties(tr[k]) ensures !NoReturn(tr, k, n) {
          PrefixNoReturn(tr, n, k, n);
        }
      }
    }
  }

  lemma OneOpen(tr: seq<Moment>, i: int, j: int)
    requires IsAbsence(tr, i, |tr|) && IsAbsence(tr, j, |tr|)
    ensures i == j
  {
    assert i < j ==> NoReturn(tr, i, j);
    assert j < i ==> NoReturn(tr, j, i);
  }

  lemma {:induction false} OpenExactly(tr: seq<Moment>, i: nat)
    ensures OpenSince(tr) == Some(i) <==> IsAbsence(tr, i, |tr|)
  {
    OpenMeaning(tr);
    if IsAbsence(tr, i, |tr|) {
      OneOpen(tr, i, OpenSince(tr).value);
    }
  }

  lemma {:induction false} EndedMeaning(tr: seq<Moment>)
    ensures forall a :: a in Ended(tr) <==> a.to < |tr| && IsAbsence(tr, a.from, a.to)
  {
    if tr != [] {
      var n := |tr| - 1;
      EndedMeaning(tr[..n]);
      forall a: Absence ensures a in Ended(tr) <==> a.to < |tr| && IsAbsence(tr, a.from, a.to) {
        OpenExactly(tr[..n], a.from);
        if a.to <= n { PrefixAbsence(tr, n, a.from, a.to); }
      }
    }
  }

  /** Listed are exactly the absences of the run. */
  lemma AbsencesMeaning(tr: seq<Moment>)
    ensures forall a :: a in AbsencesOf(tr) <==> IsAbsence(tr, a.from, a.to)
  {
    EndedMeaning(tr);
    forall a: Absence ensures a in AbsencesOf(tr) <==> IsAbsence(tr, a.from, a.to) {
      OpenExactly(tr, a.from);
    }
  }

  // ---- Disjoint ----

  /** Each ends before the next begins. */
  predicate Apart(xs: seq<Absence>) { forall i, j :: 0 <= i < j < |xs| ==> xs[i].to < xs[j].from }

  lemma ApartSnoc(xs: seq<Absence>, a: Absence)
    requires Apart(xs) && forall x :: x in xs ==> x.to < a.from
    ensures Apart(xs + [a])
  {
    forall i, j | 0 <= i < j < |xs + [a]| ensures (xs + [a])[i].to < (xs + [a])[j].from {
      assert xs[i] in xs;
    }
  }

  lemma {:induction false} OpenAfterEnded(tr: seq<Moment>, i: nat)
    requires OpenSince(tr) == Some(i)
    ensures forall x :: x in Ended(tr) ==> x.to < i
  {
    OpenMeaning(tr);
    EndedMeaning(tr);
  }

  lemma {:induction false} EndedApart(tr: seq<Moment>)
    ensures Apart(Ended(tr))
  {
    if tr != [] {
      var n := |tr| - 1;
      EndedApart(tr[..n]);
      if ComesBack(tr[n]) && OpenSince(tr[..n]).Some? {
        var i := OpenSince(tr[..n]).value;
        OpenAfterEnded(tr[..n], i);
        ApartSnoc(Ended(tr[..n]), Absence(i, n));
      }
    }
  }

  /** In order of the run, and between any two of them the stream came back. */
  lemma AbsencesAreDisjoint(tr: seq<Moment>)
    ensures Apart(AbsencesOf(tr))
  {
    EndedApart(tr);
    if OpenSince(tr).Some? {
      OpenAfterEnded(tr, OpenSince(tr).value);
      ApartSnoc(Ended(tr), Absence(OpenSince(tr).value, |tr|));
    }
  }

  // ---- Complete ----

  lemma {:induction false} BeginsBy(tr: seq<Moment>, i: nat, k: nat) returns (b: nat)
    requires i < |tr| && Empties(tr[i]) && NoReturn(tr, i, k)
    ensures b <= i && Begins(tr, b) && NoReturn(tr, b, k)
    decreases i
  {
    if Begins(tr, i) {
      b := i;
    } else {
      var earlier :| 0 <= earlier < i && Empties(tr[earlier]) && NoReturn(tr, earlier, i);
      b := BeginsBy(tr, earlier, k);
    }
  }

  lemma {:induction false} AbsenceFrom(tr: seq<Moment>, b: nat, k: nat) returns (j: nat)
    requires Begins(tr, b) && NoReturn(tr, b, k) && b < k
    ensures k <= j && IsAbsence(tr, b, j)
    decreases |tr| - k
  {
    if k == |tr| || ComesBack(tr[k]) {
      j := k;
    } else {
      j := AbsenceFrom(tr, b, k + 1);
    }
  }

  /** An absent stream was emptied by some withdrawal since it was last visible, if there was anything to lose. */
  lemma {:induction false} EmptiedBefore(baseline: Instances, ts: seq<RouteTransition>, i: int, k: nat)
    returns (e: nat)
    requires k <= |ts| && ActiveAfter(baseline, ts[..k]) == map[]
    requires baseline != map[] || (0 <= i < k && Empties(Trace(baseline, ts)[i]))
    ensures e < k && Empties(Trace(baseline, ts)[e]) && NoReturn(Trace(baseline, ts), e, k)
  {
    var tr := Trace(baseline, ts);
    assert ts[..0] == [];
    TraceAt(baseline, ts, k - 1);
    if Empties(tr[k - 1]) {
      e := k - 1;
    } else {
      NothingEmptied(baseline, ts, k - 1);
      e := EmptiedBefore(baseline, ts, i, k - 1);
    }
  }

  lemma SetStaysActive(active: Instances, t: RouteTransition)
    ensures Applies(t) ==> t.key in Acted(active, t)
  {
  }

  lemma {:induction false} NothingEmptied(baseline: Instances, ts: seq<RouteTransition>, n: nat)
    requires n < |ts| && ActiveAfter(baseline, ts[..n + 1]) == map[] && !Empties(Trace(baseline, ts)[n])
    ensures ActiveAfter(baseline, ts[..n]) == map[] && !ComesBack(Trace(baseline, ts)[n])
  {
    TraceAt(baseline, ts, n);
    assert ts[..n + 1][..n] == ts[..n];
    assert ActiveAfter(baseline, ts[..n + 1]) == Acted(ActiveAfter(baseline, ts[..n]), ts[n]);
    SetStaysActive(ActiveAfter(baseline, ts[..n]), ts[n]);
  }

  lemma {:induction false} StaysAbsent(baseline: Instances, ts: seq<RouteTransition>, i: nat, k: nat)
    requires i < k <= |ts| && Empties(Trace(baseline, ts)[i]) && NoReturn(Trace(baseline, ts), i, k)
    ensures ActiveAfter(baseline, ts[..k]) == map[]
  {
    TraceAt(baseline, ts, k - 1);
    if i < k - 1 {
      StaysAbsent(baseline, ts, i, k - 1);
    }
  }

  ghost predicate Within(xs: seq<Absence>, k: int) { exists a :: a in xs && a.from < k <= a.to }

  /**
   * After `k` transitions the stream is inside an absence exactly when it is absent and a withdrawal
   * has emptied it.
   */
  lemma {:induction false} AbsentExactlyWithin(baseline: Instances, ts: seq<RouteTransition>, k: nat)
    requires k <= |ts|
    ensures Within(AbsencesOf(Trace(baseline, ts)), k) <==>
      ActiveAfter(baseline, ts[..k]) == map[] && exists i :: 0 <= i < k && Empties(Trace(baseline, ts)[i])
  {
    var tr := Trace(baseline, ts);
    AbsencesMeaning(tr);
    if Within(AbsencesOf(tr), k) {
      var a :| a in AbsencesOf(tr) && a.from < k <= a.to;
      StaysAbsent(baseline, ts, a.from, k);
    }
    if i :| ActiveAfter(baseline, ts[..k]) == map[] && 0 <= i < k && Empties(tr[i]) {
      var e := EmptiedBefore(baseline, ts, i, k);
      var b := BeginsBy(tr, e, k);
      var j := AbsenceFrom(tr, b, k);
      assert Absence(b, j) in AbsencesOf(tr);
    }
  }

  // ---- What begins an absence ----

  /** The documented meaning: every absence begins with the loss of the last instance. */
  ghost predicate BeginWithLoss(baseline: Instances, ts: seq<RouteTransition>) {
    var tr := Trace(baseline, ts);
    forall a :: a in AbsencesOf(tr) ==> a.from < |tr| && GoesAbsent(tr[a.from])
  }

  lemma {:induction false} LossBegins(baseline: Instances, ts: seq<RouteTransition>)
    requires baseline != map[]
    ensures BeginWithLoss(baseline, ts)
  {
    var tr := Trace(baseline, ts);
    AbsencesMeaning(tr);
    forall a | a in AbsencesOf(tr) ensures GoesAbsent(tr[a.from]) {
      TraceAt(baseline, ts, a.from);
      if tr[a.from].before == map[] {
        var e := EmptiedBefore(baseline, ts, 0, a.from);
        assert false;
      }
    }
  }

  lemma {:induction false} OneAbsence(baseline: Instances, t: RouteTransition)
    requires t.kind.Withdrawal? && Acted(baseline, t) == map[]
    ensures Trace(baseline, [t]) == [Moment(baseline, t, map[])]
    ensures AbsencesOf(Trace(baseline, [t])) == [Absence(0, 1)]
  {
    var m := Moment(baseline, t, map[]);
    OneMoment(baseline, t);
    assert [] + [m] == [m];
    EndedSnoc([], m);
  }

  /** A withdrawal for a stream without any instance begins an absence. */
  lemma {:induction false} AbsentWithoutLoss(stream: StreamKey, p: Option<U32>, from: Option<RouteState>, time: int)
    ensures
      var ts := [Withdraws(stream, p, from, time)];
      AbsencesOf(Trace(map[], ts)) == [Absence(0, 1)] && !BeginWithLoss(map[], ts)
  {
    var t := Withdraws(stream, p, from, time);
    OneAbsence(map[], t);
    assert AbsencesOf(Trace(map[], [t]))[0] == Absence(0, 1);
  }

  /** As documented for every run exactly when the baseline is not empty. */
  lemma AbsencesBeginWithLossExactly(baseline: Instances)
    ensures (forall ts :: BeginWithLoss(baseline, ts)) <==> baseline != map[]
  {
    if baseline != map[] {
      forall ts ensures BeginWithLoss(baseline, ts) { LossBegins(baseline, ts); }
    } else {
      AbsentWithoutLoss(StreamKey("", "", ""), None, None, 0);
    }
  }

  // ---- How long they last ----

  datatype Span = Span(from: int, to: int)

  function TimeAt(tr: seq<Moment>, end: int, i: nat): int { if i < |tr| then tr[i].t.Time() else end }

  function SpanOf(tr: seq<Moment>, end: int): Absence -> Span {
    (a: Absence) => Span(TimeAt(tr, end, a.from), TimeAt(tr, end, a.to))
  }

  /** The absences in time; the open one lasts to `end`. */
  function SpansOf(tr: seq<Moment>, end: int): seq<Span> { Map(AbsencesOf(tr), SpanOf(tr, end)) }

  function Seconds(s: Span): int { NumSeconds(s.to - s.from) }

  predicate Positive(secs: int) { secs > 0 }

  /** Whole seconds of each, without those that last less than one. */
  function AbsenceSeconds(spans: seq<Span>): seq<int> { Filter(Map(spans, Seconds), Positive) }

  lemma AbsenceSecondsSnoc(spans: seq<Span>, s: Span)
    ensures AbsenceSeconds(spans + [s]) == ClosedAbsence(AbsenceSeconds(spans), Some(s.from), s.to)
  {
    MapSnoc(spans, s, Seconds);
    FilterSnoc(Map(spans, Seconds), Seconds(s), Positive);
  }

  function EndedSpans(tr: seq<Moment>): seq<Span> { Map(Ended(tr), SpanOf(tr, 0)) }

  lemma {:induction false} EndedSpansFixed(tr: seq<Moment>, m: Moment, end: int)
    ensures Map(Ended(tr), SpanOf(tr, end)) == EndedSpans(tr) == Map(Ended(tr), SpanOf(tr + [m], end))
  {
    EndedMeaning(tr);
    forall k | 0 <= k < |Ended(tr)|
      ensures SpanOf(tr, end)(Ended(tr)[k]) == SpanOf(tr, 0)(Ended(tr)[k]) == SpanOf(tr + [m], end)(Ended(tr)[k])
    {
      assert Ended(tr)[k] in Ended(tr);
    }
  }

  /** The ledger holds the ended absences, and where the open one began. */
  ghost predicate AbsencesTell(l: Ledger, tr: seq<Moment>) {
    && l.absences == AbsenceSeconds(EndedSpans(tr))
    && l.absenceStart == match OpenSince(tr) case Some(i) => Some(TimeAt(tr, 0, i)) case None => None
  }

  lemma {:induction false} EndedSnoc(tr: seq<Moment>, m: Moment)
    ensures Ended(tr + [m]) ==
      Ended(tr) + if ComesBack(m) && OpenSince(tr).Some? then [Absence(OpenSince(tr).value, |tr|)] else []
    ensures OpenSince(tr + [m]) ==
      if ComesBack(m) then None
      else if OpenSince(tr).Some? then OpenSince(tr)
      else if Empties(m) then Some(|tr|)
      else None
  {
    assert (tr + [m])[..|tr|] == tr;
  }

  lemma {:induction false} EndedSpansSnoc(tr: seq<Moment>, m: Moment)
    ensures EndedSpans(tr + [m]) == EndedSpans(tr) +
      if ComesBack(m) && OpenSince(tr).Some? then [Span(TimeAt(tr, 0, OpenSince(tr).value), m.t.Time())] else []
  {
    EndedSnoc(tr, m);
    EndedSpansFixed(tr, m, 0);
    if ComesBack(m) && OpenSince(tr).Some? {
      OpenMeaning(tr);
      MapSnoc(Ended(tr), Absence(OpenSince(tr).value, |tr|), SpanOf(tr + [m], 0));
    }
  }

  lemma {:induction false} OpenTimeSnoc(
      l: Ledger, tr: seq<Moment>, m: Moment, baseline: Instances, tp: TransitPredicate)
    requires AbsencesTell(l, tr) && m.after == Acted(m.before, m.t)
    ensures Booked(l, m.before, m.t, m.after, baseline, tp).absenceStart ==
      match OpenSince(tr + [m]) case Some(i) => Some(TimeAt(tr + [m], 0, i)) case None => None
  {
    EndedSnoc(tr, m);
    OpenMeaning(tr);
    assert m.t.kind.Withdrawal? ==> !ComesBack(m);
  }

  lemma EndedTellsSnoc(l: Ledger, tr: seq<Moment>, m: Moment, baseline: Instances, tp: TransitPredicate)
    requires AbsencesTell(l, tr) && m.after == Acted(m.before, m.t)
    ensures Booked(l, m.before, m.t, m.after, baseline, tp).absences == AbsenceSeconds(EndedSpans(tr + [m]))
  {
    EndedSpansSnoc(tr, m);
    assert m.t.kind.Withdrawal? ==> !ComesBack(m);
    if ComesBack(m) && OpenSince(tr).Some? {
      AbsenceSecondsSnoc(EndedSpans(tr), Span(TimeAt(tr, 0, OpenSince(tr).value), m.t.Time()));
    } else {
      assert EndedSpans(tr + [m]) == EndedSpans(tr);
    }
  }

  lemma {:induction false} LedgerAbsences(baseline: Instances, ts: seq<RouteTransition>, tp: TransitPredicate)
    ensures AbsencesTell(LedgerAfter(baseline, ts, tp), Trace(baseline, ts))
  {
    if ts != [] {
      var init, t := ts[..|ts| - 1], ts[|ts| - 1];
      LedgerAbsences(baseline, init, tp);
      var m := Moment(ActiveAfter(baseline, init), t, ActiveAfter(baseline, ts));
      OpenTimeSnoc(LedgerAfter(baseline, init, tp), Trace(baseline, init), m, baseline, tp);
      EndedTellsSnoc(LedgerAfter(baseline, init, tp), Trace(baseline, init), m, baseline, tp);
    }
  }

  /** What is recorded for a run, the open absence closed: the whole seconds of its absences. */
  lemma {:induction false} RecordedAbsences(
      baseline: Instances, ts: seq<RouteTransition>, tp: TransitPredicate, cooldownEnd: int)
    ensures
      var l := LedgerAfter(baseline, ts, tp);
      ClosedAbsence(l.absences, l.absenceStart, cooldownEnd)
        == AbsenceSeconds(SpansOf(Trace(baseline, ts), cooldownEnd))
  {
    LedgerAbsences(baseline, ts, tp);
    OpenIncluded(Trace(baseline, ts), cooldownEnd);
  }

  lemma {:induction false} OpenIncluded(tr: seq<Moment>, end: int)
    ensures AbsenceSeconds(SpansOf(tr, end)) == ClosedAbsence(AbsenceSeconds(EndedSpans(tr)),
      match OpenSince(tr) case Some(i) => Some(TimeAt(tr, 0, i)) case None => None, end)
  {
    EndedFixed(tr, end);
    if OpenSince(tr).Some? {
      var a := Absence(OpenSince(tr).value, |tr|);
      OpenMeaning(tr);
      MapSnoc(Ended(tr), a, SpanOf(tr, end));
      AbsenceSecondsSnoc(EndedSpans(tr), SpanOf(tr, end)(a));
    } else {
      assert AbsencesOf(tr) == Ended(tr);
    }
  }

  lemma {:induction false} EndedFixed(tr: seq<Moment>, end: int)
    ensures Map(Ended(tr), SpanOf(tr, end)) == EndedSpans(tr)
  {
    EndedMeaning(tr);
    forall k | 0 <= k < |Ended(tr)| ensures SpanOf(tr, end)(Ended(tr)[k]) == SpanOf(tr, 0)(Ended(tr)[k]) {
      assert Ended(tr)[k] in Ended(tr);
    }
  }

  // ---- Bounded ----

  /** None ends before it begins, and none begins before an earlier one ends. */
  predicate InTime(spans: seq<Span>) {
    && (forall i :: 0 <= i < |spans| ==> spans[i].from <= spans[i].to)
    && (forall i, j :: 0 <= i < j < |spans| ==> spans[i].to <= spans[j].from)
  }

  predicate ChronologicalBy(tr: seq<Moment>, end: int) {
    forall i: nat, j: nat :: i <= j <= |tr| ==> TimeAt(tr, end, i) <= TimeAt(tr, end, j)
  }

  /** In a chronological run the absences are disjoint in time, too. */
  lemma AbsencesInTime(tr: seq<Moment>, end: int)
    requires ChronologicalBy(tr, end)
    ensures InTime(SpansOf(tr, end))
  {
    var xs := AbsencesOf(tr);
    AbsencesMeaning(tr);
    AbsencesAreDisjoint(tr);
    forall i | 0 <= i < |xs| ensures xs[i].from <= xs[i].to <= |tr| {
      assert xs[i] in xs;
    }
  }

  function Sum(xs: seq<int>): int {
    if xs == [] then 0 else Sum(xs[..|xs| - 1]) + xs[|xs| - 1]
  }

  lemma {:induction false} SumSnoc(xs: seq<int>, x: int)
    ensures Sum(xs + [x]) == Sum(xs) + x
  {
    assert (xs + [x])[..|xs|] == xs;
  }

  lemma {:induction false} ClosedSum(xs: seq<int>, s: Span)
    requires s.from <= s.to
    ensures NANOS * Sum(ClosedAbsence(xs, Some(s.from), s.to)) <= NANOS * Sum(xs) + (s.to - s.from)
  {
    SumSnoc(xs, Seconds(s));
  }

  lemma TotalSnoc(spans: seq<Span>, s: Span)
    requires s.from <= s.to
    ensures NANOS * Sum(AbsenceSeconds(spans + [s])) <= NANOS * Sum(AbsenceSeconds(spans)) + (s.to - s.from)
  {
    AbsenceSecondsSnoc(spans, s);
    ClosedSum(AbsenceSeconds(spans), s);
  }

  lemma {:induction false} TotalFits(spans: seq<Span>)
    requires InTime(spans) && spans != []
    ensures NANOS * Sum(AbsenceSeconds(spans)) <= spans[|spans| - 1].to - spans[0].from
  {
    var n := |spans| - 1;
    var init := spans[..n];
    TotalSnoc(init, spans[n]);
    assert spans == init + [spans[n]];
    if init != [] {
      TotalFits(init);
    }
  }

  lemma {:induction false} FirstBegins(tr: seq<Moment>)
    ensures AbsencesOf(tr) == [] <==> FirstMatch(tr, Empties).None?
    ensures AbsencesOf(tr) != [] ==>
      AbsencesOf(tr)[0].from < |tr| && FirstMatch(tr, Empties) == Some(tr[AbsencesOf(tr)[0].from])
  {
    var xs := AbsencesOf(tr);
    AbsencesMeaning(tr);
    FirstMatchMeaning(tr, Empties);
    if xs != [] {
      assert xs[0] in xs;
    }
    if FirstMatch(tr, Empties).Some? {
      var i :| 0 <= i < |tr| && Empties(tr[i]) && FirstMatch(tr, Empties) == Some(tr[i])
        && forall j :: 0 <= j < i ==> !Empties(tr[j]);
      var j := AbsenceFrom(tr, i, i + 1);
      AbsencesAreDisjoint(tr);
      assert Absence(i, j) in xs;
      var k :| 0 <= k < |xs| && xs[k] == Absence(i, j);
      assert xs[0].from < xs[0].to && xs[0].from <= xs[k].from;
    }
  }

  /** Positive, and together no longer than the time since the first absence, in whole seconds. */
  predicate AbsencesBounded(absences: seq<int>, first: Option<int>, end: int) {
    && (forall i :: 0 <= i < |absences| ==> absences[i] > 0)
    && (first.None? ==> absences == [])
    && (first.Some? ==> Sum(absences) <= NumSeconds(end - first.value))
  }

  lemma PositiveSeconds(spans: seq<Span>)
    ensures forall i :: 0 <= i < |AbsenceSeconds(spans)| ==> AbsenceSeconds(spans)[i] > 0
  {
    forall i | 0 <= i < |AbsenceSeconds(spans)| ensures AbsenceSeconds(spans)[i] > 0 {
      FilterMember(Map(spans, Seconds), Positive, AbsenceSeconds(spans)[i]);
    }
  }

  /**
   * In a chronological run that ends by `cooldownEnd` the recorded absences are positive, and
   * together no longer than the time since the first withdrawal that left nothing.
   */
  lemma {:induction false} AbsencesAreBounded(
      baseline: Instances, ts: seq<RouteTransition>, tp: TransitPredicate, cooldownEnd: int)
    requires ChronologicalBy(Trace(baseline, ts), cooldownEnd)
    ensures
      var l, tr := LedgerAfter(baseline, ts, tp), Trace(baseline, ts);
      AbsencesBounded(ClosedAbsence(l.absences, l.absenceStart, cooldownEnd), TimeOfMatch(FirstMatch(tr, Empties)),
        cooldownEnd)
  {
    var tr := Trace(baseline, ts);
    var spans := SpansOf(tr, cooldownEnd);
    RecordedAbsences(baseline, ts, tp, cooldownEnd);
    PositiveSeconds(spans);
    FirstBegins(tr);
    if spans != [] {
      LastEnds(tr, cooldownEnd);
      AbsencesInTime(tr, cooldownEnd);
      TotalFits(spans);
    }
  }

  lemma LastEnds(tr: seq<Moment>, end: int)
    requires ChronologicalBy(tr, end) && SpansOf(tr, end) != []
    ensures SpansOf(tr, end)[|SpansOf(tr, end)| - 1].to <= end
  {
    var a := AbsencesOf(tr)[|AbsencesOf(tr)| - 1];
    assert a in AbsencesOf(tr);
    AbsencesMeaning(tr);
    assert TimeAt(tr, end, a.to) <= TimeAt(tr, end, |tr|);
  }

  // ---- The record ----

  /** The least and the greatest of these, missing exactly when there are none. */
  ghost predicate ExtremesTell(least: Option<int>, greatest: Option<int>, absences: seq<int>) {
    && (absences == [] <==> least.None?) && (absences == [] <==> greatest.None?)
    && (absences != [] ==>
      && least.value in absences && greatest.value in absences
      && forall x :: x in absences ==> least.value <= x <= greatest.value)
  }

  /** Shortest and longest absence of a record, and how long its stream was affected. */
  lemma {:induction false} RecordDurationsMeaning(
      lc: StreamLifecycle, stream: StreamKey, baseline: Instances, ts: seq<RouteTransition>, cooldownEnd: int,
      tp: TransitPredicate)
    requires IsLifecycle(lc, stream, baseline, ts, cooldownEnd, tp)
    ensures
      var absences := AbsenceSeconds(SpansOf(Trace(baseline, ts), cooldownEnd));
      ExtremesTell(lc.minAbsenceSecs, lc.maxAbsenceSecs, absences)
    ensures DurationTells(lc.affectedDurationSecs, Trace(baseline, ts), tp, cooldownEnd)
  {
    ConclusionDurations(lc, stream, baseline, Simulate(baseline, ts, tp), Ambiguous(baseline, ts), cooldownEnd, tp);
    AffectedDurationMeaning(baseline, ts, tp, cooldownEnd);
    RecordedAbsences(baseline, ts, tp, cooldownEnd);
    ExtremesMeaning(AbsenceSeconds(SpansOf(Trace(baseline, ts), cooldownEnd)));
  }

  /** The documented meaning: extremes are missing for streams that were never withdrawn, and for no others. */
  predicate MissingAsDocumented(lc: StreamLifecycle) { lc.minAbsenceSecs.None? <==> !lc.wasWithdrawn }

  predicate AtLeastOneSecond(s: Span) { s.to - s.from >= NANOS }

  lemma PositiveMeans(s: Span)
    ensures Positive(Seconds(s)) <==> AtLeastOneSecond(s)
  {
  }

  lemma SomeSeconds(spans: seq<Span>)
    ensures AbsenceSeconds(spans) != [] <==> exists i :: 0 <= i < |spans| && AtLeastOneSecond(spans[i])
  {
    var all := Map(spans, Seconds);
    if AbsenceSeconds(spans) != [] {
      var x := AbsenceSeconds(spans)[0];
      assert x in AbsenceSeconds(spans);
      FilterMember(all, Positive, x);
      var i :| 0 <= i < |all| && all[i] == x;
      PositiveMeans(spans[i]);
    }
    if i :| 0 <= i < |spans| && AtLeastOneSecond(spans[i]) {
      PositiveMeans(spans[i]);
      assert all[i] == Seconds(spans[i]) && all[i] in all;
      FilterMember(all, Positive, all[i]);
    }
  }

  /** As documented exactly when a stream that was withdrawn has an absence of at least one second. */
  lemma {:induction false} MissingAsDocumentedExactly(
      lc: StreamLifecycle, stream: StreamKey, baseline: Instances, ts: seq<RouteTransition>, cooldownEnd: int,
      tp: TransitPredicate)
    requires IsLifecycle(lc, stream, baseline, ts, cooldownEnd, tp)
    ensures
      var spans := SpansOf(Trace(baseline, ts), cooldownEnd);
      MissingAsDocumented(lc) <==>
        (lc.wasWithdrawn ==> exists i :: 0 <= i < |spans| && AtLeastOneSecond(spans[i]))
  {
    var tr := Trace(baseline, ts);
    RecordDurationsMeaning(lc, stream, baseline, ts, cooldownEnd, tp);
    SomeSeconds(SpansOf(tr, cooldownEnd));
    ConclusionDurations(lc, stream, baseline, Simulate(baseline, ts, tp), Ambiguous(baseline, ts), cooldownEnd, tp);
    CountersMeaning(baseline, ts, tp);
    TimesPositive(tr, Empties);
    FirstBegins(tr);
    FirstMatchMeaning(tr, Empties);
  }

  /** A stream withdrawn less than a second before the end: no extremes. */
  lemma {:induction false} WithdrawnAtTheEnd(
      lc: StreamLifecycle, stream: StreamKey, p: Option<U32>, time: int, cooldownEnd: int, tp: TransitPredicate)
    requires time <= cooldownEnd < time + NANOS
    requires IsLifecycle(lc, stream, map[RouteKey(stream, p) := Route(ON_TRANSIT)],
      [Withdraws(stream, p, Some(Route(ON_TRANSIT)), time)], cooldownEnd, tp)
    ensures lc.wasWithdrawn && lc.minAbsenceSecs.None? && lc.maxAbsenceSecs.None?
  {
    var baseline, t :=
      map[RouteKey(stream, p) := Route(ON_TRANSIT)], Withdraws(stream, p, Some(Route(ON_TRANSIT)), time);
    var tr := Trace(baseline, [t]);
    OneAbsence(baseline, t);
    assert Empties(tr[0]);
    CountersMeaning(baseline, [t], tp);
    TimesPositive(tr, Empties);
    SomeSeconds(SpansOf(tr, cooldownEnd));
    RecordDurationsMeaning(lc, stream, baseline, [t], cooldownEnd, tp);
    ConclusionDurations(lc, stream, baseline, Simulate(baseline, [t], tp), Ambiguous(baseline, [t]), cooldownEnd, tp);
  }
}
