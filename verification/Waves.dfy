/** Semantic waves: temporal clusters of event transitions, each with a label and a peak window. */
module Waves {
  import opened Prelude
  import opened Seqs
  import opened Sorting
  import opened Orders
  import opened Text
  import opened Routes
  import opened Lifecycle
  import opened LifecycleRuns
  import opened Runs

  // ---- What a transition supports ----

  datatype WaveLabel =
    | PrependReduction
    | PrependIncrease
    | StreamWithdrawal
    | TransitDeparture
    | StreamRestored
    | TransitReturn
    | BaselinePolicyRestoration
    | MixedRouteChange
  {
    function Name(): string {
      match this
      case PrependReduction => "PrependReduction"
      case PrependIncrease => "PrependIncrease"
      case StreamWithdrawal => "StreamWithdrawal"
      case TransitDeparture => "TransitDeparture"
      case StreamRestored => "StreamRestoration"
      case TransitReturn => "TransitReturn"
      case BaselinePolicyRestoration => "BaselinePolicyRestoration"
      case MixedRouteChange => "MixedRouteChange"
    }
  }

  predicate FromVia(t: RouteTransition, tp: TransitPredicate) { t.from.Some? && Via(tp, t.from.value) }

  predicate ToVia(t: RouteTransition, tp: TransitPredicate) { t.to.Some? && Via(tp, t.to.value) }

  predicate ByPrepend(prepend: PrependChange, effect: WaveLabel) {
    (prepend.Reduced? && effect.PrependReduction?) || (prepend.Increased? && effect.PrependIncrease?)
  }

  /** Only a transition that leaves a route in place departs from or returns to the transit. */
  predicate ByTransit(present: bool, fromVia: bool, toVia: bool, effect: WaveLabel) {
    present && ((fromVia && !toVia && effect.TransitDeparture?) || (!fromVia && toVia && effect.TransitReturn?))
  }

  predicate ByKind(kind: TransitionKind, effect: WaveLabel) {
    match kind
    case Withdrawal => effect.StreamWithdrawal?
    case Restoration => effect.StreamRestored?
    case ReturnToBaseline => effect.BaselinePolicyRestoration?
    case _ => false
  }

  predicate Supports(t: RouteTransition, effect: WaveLabel, tp: TransitPredicate) {
    || ByPrepend(t.effects.prepend, effect)
    || ByTransit(t.to.Some?, FromVia(t, tp), ToVia(t, tp), effect)
    || ByKind(t.kind, effect)
  }

  function Supporting(effect: WaveLabel, tp: TransitPredicate): RouteTransition -> bool {
    (t: RouteTransition) => Supports(t, effect, tp)
  }

  function Support(group: seq<RouteTransition>, effect: WaveLabel, tp: TransitPredicate): nat {
    |Filter(group, Supporting(effect, tp))|
  }

  ghost predicate Dominates(effect: WaveLabel, group: seq<RouteTransition>, tp: TransitPredicate) {
    Support(group, effect, tp) > 0 && forall other :: other != effect ==>
      Support(group, other, tp) < Support(group, effect, tp)
  }

  /** The dominating label, or `MixedRouteChange` when no label dominates. */
  ghost predicate IsLabel(effect: WaveLabel, group: seq<RouteTransition>, tp: TransitPredicate) {
    if effect.MixedRouteChange? then forall other :: !Dominates(other, group, tp) else Dominates(effect, group, tp)
  }

  // ---- Counting labels ----

  type LabelCounts = seq<(WaveLabel, nat)>

  function CountOf(counts: LabelCounts, effect: WaveLabel): nat {
    if counts == [] then 0 else if counts[0].0 == effect then counts[0].1 else CountOf(counts[1..], effect)
  }

  ghost predicate Distinct(counts: LabelCounts) {
    && (forall i :: 0 <= i < |counts| ==> counts[i].1 > 0)
    && (forall i, j :: 0 <= i < j < |counts| ==> counts[i].0 != counts[j].0)
  }

  lemma {:induction false} CountOfEntry(counts: LabelCounts, effect: WaveLabel)
    requires Distinct(counts)
    ensures forall i :: 0 <= i < |counts| && counts[i].0 == effect ==> CountOf(counts, effect) == counts[i].1
    ensures (forall i :: 0 <= i < |counts| ==> counts[i].0 != effect) ==> CountOf(counts, effect) == 0
  {
    if counts != [] { CountOfEntry(counts[1..], effect); }
  }

  lemma {:induction false} CountsByEntries(before: LabelCounts, after: LabelCounts, effect: WaveLabel)
    requires Distinct(before) && Distinct(after)
    requires forall i :: 0 <= i < |before| ==>
      i < |after| && after[i].0 == before[i].0 && after[i].1 == before[i].1 + One(before[i].0 == effect)
    requires forall i :: |before| <= i < |after| ==> after[i] == (effect, 1)
    requires exists i :: 0 <= i < |after| && after[i].0 == effect
    ensures forall m :: CountOf(after, m) == CountOf(before, m) + One(m == effect)
  {
    forall m ensures CountOf(after, m) == CountOf(before, m) + One(m == effect) {
      CountOfEntry(before, m);
      CountOfEntry(after, m);
      if i :| 0 <= i < |before| && before[i].0 == m {
        assert after[i].0 == m;
      }
    }
  }

  /** Find the label's entry and raise it, or append a new one. */
  method Bump(counts: LabelCounts, effect: WaveLabel) returns (next: LabelCounts)
    requires Distinct(counts)
    ensures Distinct(next)
    ensures forall m :: CountOf(next, m) == CountOf(counts, m) + One(m == effect)
  {
    var i := 0;
    while i < |counts| && counts[i].0 != effect
      invariant i <= |counts|
      invariant forall j :: 0 <= j < i ==> counts[j].0 != effect
    {
      i := i + 1;
    }
    if i < |counts| {
      next := counts[i := (effect, counts[i].1 + 1)];
    } else {
      next := counts + [(effect, 1)];
    }
    assert next[i].0 == effect;
    CountsByEntries(counts, next, effect);
  }

  datatype EventRelative = EventRelative(retained: nat, departed: nat, returned: nat)

  predicate Retains(t: RouteTransition, tp: TransitPredicate) { FromVia(t, tp) && ToVia(t, tp) }

  function Retaining(tp: TransitPredicate): RouteTransition -> bool {
    (t: RouteTransition) => Retains(t, tp)
  }

  method CountPrepend(counts: LabelCounts, prepend: PrependChange) returns (next: LabelCounts)
    requires Distinct(counts)
    ensures Distinct(next) && forall m :: CountOf(next, m) == CountOf(counts, m) + One(ByPrepend(prepend, m))
  {
    next := counts;
    if prepend.Reduced? {
      next := Bump(next, PrependReduction);
    } else if prepend.Increased? {
      next := Bump(next, PrependIncrease);
    }
  }

  method CountTransit(counts: LabelCounts, relative: EventRelative, present: bool, fromHas: bool, toHas: bool)
    returns (next: LabelCounts, nextRelative: EventRelative)
    requires Distinct(counts)
    ensures Distinct(next) && forall m ::
      CountOf(next, m) == CountOf(counts, m) + One(ByTransit(present, fromHas, toHas, m))
    ensures nextRelative == EventRelative(
      relative.retained + One(present && fromHas && toHas),
      relative.departed + One(present && fromHas && !toHas),
      relative.returned + One(present && !fromHas && toHas))
  {
    next, nextRelative := counts, relative;
    if present {
      if fromHas && toHas {
        nextRelative := nextRelative.(retained := nextRelative.retained + 1);
      } else if fromHas && !toHas {
        nextRelative := nextRelative.(departed := nextRelative.departed + 1);
        next := Bump(next, TransitDeparture);
      } else if !fromHas && toHas {
        nextRelative := nextRelative.(returned := nextRelative.returned + 1);
        next := Bump(next, TransitReturn);
      }
    }
  }

  method CountKind(counts: LabelCounts, kind: TransitionKind) returns (next: LabelCounts)
    requires Distinct(counts)
    ensures Distinct(next) && forall m :: CountOf(next, m) == CountOf(counts, m) + One(ByKind(kind, m))
  {
    match kind {
      case Withdrawal => next := Bump(counts, StreamWithdrawal);
      case Restoration => next := Bump(counts, StreamRestored);
      case ReturnToBaseline => next := Bump(counts, BaselinePolicyRestoration);
      case _ => next := counts;
    }
  }

  lemma OneLabelEach(t: RouteTransition, m: WaveLabel, tp: TransitPredicate)
    ensures One(Supports(t, m, tp)) ==
      One(ByPrepend(t.effects.prepend, m)) + One(ByTransit(t.to.Some?, FromVia(t, tp), ToVia(t, tp), m))
        + One(ByKind(t.kind, m))
  {
  }

  method CountTransition(counts: LabelCounts, relative: EventRelative, t: RouteTransition, tp: TransitPredicate)
    returns (next: LabelCounts, nextRelative: EventRelative)
    requires Distinct(counts)
    ensures Distinct(next) && forall m :: CountOf(next, m) == CountOf(counts, m) + One(Supports(t, m, tp))
    ensures nextRelative == EventRelative(
      relative.retained + One(Retains(t, tp)),
      relative.departed + One(Supports(t, TransitDeparture, tp)),
      relative.returned + One(Supports(t, TransitReturn, tp)))
  {
    next := CountPrepend(counts, t.effects.prepend);
    next, nextRelative := CountTransit(next, relative, t.to.Some?, FromVia(t, tp), ToVia(t, tp));
    next := CountKind(next, t.kind);
    forall m { OneLabelEach(t, m, tp); }
  }

  function RelativeOf(group: seq<RouteTransition>, tp: TransitPredicate): EventRelative {
    EventRelative(|Filter(group, Retaining(tp))|, Support(group, TransitDeparture, tp),
      Support(group, TransitReturn, tp))
  }

  lemma SupportSnoc(group: seq<RouteTransition>, t: RouteTransition, effect: WaveLabel, tp: TransitPredicate)
    ensures Support(group + [t], effect, tp) == Support(group, effect, tp) + One(Supports(t, effect, tp))
  {
    FilterSnoc(group, t, Supporting(effect, tp));
  }

  method CountLabels(group: seq<RouteTransition>, tp: TransitPredicate)
    returns (counts: LabelCounts, relative: EventRelative)
    ensures Distinct(counts) && forall m :: CountOf(counts, m) == Support(group, m, tp)
    ensures relative == RelativeOf(group, tp)
  {
    counts, relative := [], EventRelative(0, 0, 0);
    for i := 0 to |group|
      invariant Distinct(counts) && forall m :: CountOf(counts, m) == Support(group[..i], m, tp)
      invariant relative == RelativeOf(group[..i], tp)
    {
      counts, relative := CountTransition(counts, relative, group[i], tp);
      assert group[..i + 1] == group[..i] + [group[i]];
      forall m ensures Support(group[..i + 1], m, tp) == Support(group[..i], m, tp) + One(Supports(group[i], m, tp)) {
        SupportSnoc(group[..i], group[i], m, tp);
      }
      FilterSnoc(group[..i], group[i], Retaining(tp));
    }
    assert group[..|group|] == group;
  }

  /** Most support first, then by name. */
  function CompareSupport(a: (WaveLabel, nat), b: (WaveLabel, nat)): Ordering {
    CompareInt(b.1, a.1).Then(CompareString(a.0.Name(), b.0.Name()))
  }

  predicate MoreSupported(a: (WaveLabel, nat), b: (WaveLabel, nat)) { CompareSupport(a, b) != Greater }

  lemma SupportOrderIsTotal()
    ensures TotalPreorder(MoreSupported)
  {
    StringLawful();
    var bySupport := (a: (WaveLabel, nat), b: (WaveLabel, nat)) => CompareInt(b.1, a.1);
    var byName := (a: (WaveLabel, nat), b: (WaveLabel, nat)) => CompareString(a.0.Name(), b.0.Name());
    ThenLawful(bySupport, byName, CompareSupport);
    forall a, b ensures MoreSupported(a, b) || MoreSupported(b, a) {
      assert CompareSupport(b, a) == CompareSupport(a, b).Reversed();
    }
    forall a, b, c | MoreSupported(a, b) && MoreSupported(b, c) ensures MoreSupported(a, c) {
      assert CompareSupport(a, b) != Greater && CompareSupport(b, c) != Greater;
    }
  }

  /** Sorting the counts keeps the entries and puts a largest one first. */
  lemma {:induction false} SortedCounts(counts: LabelCounts)
    requires Distinct(counts)
    ensures
      var sorted := SortBy(counts, MoreSupported);
      && |sorted| == |counts|
      && Distinct(sorted)
      && (forall m :: CountOf(sorted, m) == CountOf(counts, m))
      && (forall i, j :: 0 <= i < j < |sorted| ==> sorted[i].1 >= sorted[j].1)
  {
    var sorted := SortBy(counts, MoreSupported);
    SupportOrderIsTotal();
    SortSorts(counts, MoreSupported);
    SortPermutes(counts, MoreSupported);
    PermutedCounts(counts, sorted);
    forall i, j | 0 <= i < j < |sorted| ensures sorted[i].1 >= sorted[j].1 {
      assert MoreSupported(sorted[i], sorted[j]);
    }
  }

  function LabelIn(entry: (WaveLabel, nat)): WaveLabel { entry.0 }

  /** No label has two entries in any arrangement. */
  lemma LabelsStayDistinct(counts: LabelCounts, sorted: LabelCounts, i: nat, j: nat)
    requires Distinct(counts) && multiset(counts) == multiset(sorted) && i < j < |sorted|
    ensures sorted[i].0 != sorted[j].0
  {
    MapPermutes(counts, sorted, LabelIn);
    var before, after := Map(counts, LabelIn), Map(sorted, LabelIn);
    forall a, b | 0 <= a < b < |before| ensures before[a] != before[b] {
      assert counts[a].0 != counts[b].0;
    }
    if after[i] == after[j] {
      RemoveAt(after, j);
      assert (after[..j] + after[j + 1..])[i] == after[i];
      assert after[i] in multiset(after[..j] + after[j + 1..]);
      var k := FindIndex(before, after[i]);
      CountedOnce(before, k);
    }
  }

  lemma {:induction false} SameEntries(counts: LabelCounts, sorted: LabelCounts, m: WaveLabel)
    requires Distinct(counts) && Distinct(sorted) && multiset(counts) == multiset(sorted)
    ensures CountOf(sorted, m) == CountOf(counts, m)
  {
    CountOfEntry(sorted, m);
    CountOfEntry(counts, m);
    if i :| 0 <= i < |sorted| && sorted[i].0 == m {
      assert sorted[i] in multiset(sorted);
      var k := FindIndex(counts, sorted[i]);
    } else {
      forall k | 0 <= k < |counts| ensures counts[k].0 != m {
        assert counts[k] in multiset(counts);
        var i := FindIndex(sorted, counts[k]);
      }
    }
  }

  lemma {:induction false} PermutedCounts(counts: LabelCounts, sorted: LabelCounts)
    requires Distinct(counts) && multiset(counts) == multiset(sorted)
    ensures Distinct(sorted) && forall m :: CountOf(sorted, m) == CountOf(counts, m)
  {
    forall i, j | 0 <= i < j < |sorted| ensures sorted[i].0 != sorted[j].0 {
      LabelsStayDistinct(counts, sorted, i, j);
    }
    forall i | 0 <= i < |sorted| ensures sorted[i].1 > 0 {
      assert sorted[i] in multiset(sorted);
      var k := FindIndex(counts, sorted[i]);
    }
    forall m ensures CountOf(sorted, m) == CountOf(counts, m) {
      SameEntries(counts, sorted, m);
    }
  }

  method DecideLabel(counts: LabelCounts, ghost group: seq<RouteTransition>, tp: TransitPredicate)
    returns (effect: WaveLabel)
    requires Distinct(counts) && forall m :: CountOf(counts, m) == Support(group, m, tp)
    ensures IsLabel(effect, group, tp)
  {
    SortedCounts(counts);
    var sorted := SortBy(counts, MoreSupported);
    if sorted == [] {
      effect := MixedRouteChange;
    } else if |sorted| > 1 && sorted[1].1 == sorted[0].1 {
      effect := MixedRouteChange;
      TopTies(sorted, group, tp);
    } else {
      effect := sorted[0].0;
      TopWins(sorted, group, tp);
    }
  }

  lemma {:induction false} TopWins(sorted: LabelCounts, group: seq<RouteTransition>, tp: TransitPredicate)
    requires Distinct(sorted) && sorted != [] && (|sorted| > 1 ==> sorted[1].1 != sorted[0].1)
    requires forall i, j :: 0 <= i < j < |sorted| ==> sorted[i].1 >= sorted[j].1
    requires forall m :: CountOf(sorted, m) == Support(group, m, tp)
    ensures !sorted[0].0.MixedRouteChange? && Dominates(sorted[0].0, group, tp)
  {
    var top := sorted[0].0;
    CountOfEntry(sorted, top);
    NothingSupportsMixed(group, tp);
    forall other | other != top ensures Support(group, other, tp) < Support(group, top, tp) {
      CountOfEntry(sorted, other);
    }
  }

  lemma {:induction false} NothingSupportsMixed(group: seq<RouteTransition>, tp: TransitPredicate)
    ensures Support(group, MixedRouteChange, tp) == 0
  {
    if group != [] { NothingSupportsMixed(group[1..], tp); }
  }

  lemma {:induction false} TopTies(sorted: LabelCounts, group: seq<RouteTransition>, tp: TransitPredicate)
    requires Distinct(sorted) && |sorted| > 1 && sorted[1].1 == sorted[0].1
    requires forall i, j :: 0 <= i < j < |sorted| ==> sorted[i].1 >= sorted[j].1
    requires forall m :: CountOf(sorted, m) == Support(group, m, tp)
    ensures forall m :: !Dominates(m, group, tp)
  {
    forall m ensures !Dominates(m, group, tp) {
      CountOfEntry(sorted, m);
      CountOfEntry(sorted, sorted[0].0);
      CountOfEntry(sorted, sorted[1].0);
      var rival := if sorted[0].0 == m then sorted[1].0 else sorted[0].0;
      assert Support(group, rival, tp) >= Support(group, m, tp);
    }
  }

  // ---- The peak window ----

  const PEAK_WINDOW := 60 * NANOS

  predicate IntAtMost(a: int, b: int) { a <= b }

  function Within(from: int): int -> bool {
    (time: int) => from <= time <= from + PEAK_WINDOW
  }

  function InWindow(times: seq<int>, from: int): nat {
    |Filter(times, Within(from))|
  }

  /** The earliest observed start of a fullest window, and the last time in that window. */
  ghost predicate IsPeak(start: int, end: int, times: seq<int>) {
    && start in times
    && (forall from :: InWindow(times, from) <= InWindow(times, start))
    && (forall t :: t in times && t < start ==> InWindow(times, t) < InWindow(times, start))
    && end in times && start <= end <= start + PEAK_WINDOW
    && (forall t :: t in times && t <= start + PEAK_WINDOW ==> t <= end)
  }

  /** A start at an observed time, among those looked at so far, that no other beats. */
  ghost predicate BestOf(seen: seq<int>, times: seq<int>, start: int, best: nat) {
    && start in seen && best == InWindow(times, start)
    && (forall t :: t in seen ==> InWindow(times, t) <= best)
    && (forall t :: t in seen && t < start ==> InWindow(times, t) < best)
  }

  lemma BestSnoc(seen: seq<int>, times: seq<int>, t: int, start: int, best: nat)
    requires seen != [] ==> BestOf(seen, times, start, best)
    requires seen == [] ==> best == 0 && InWindow(times, t) > 0
    requires forall s :: s in seen ==> s <= t
    ensures
      if InWindow(times, t) > best then BestOf(seen + [t], times, t, InWindow(times, t))
      else BestOf(seen + [t], times, start, best)
  {
    assert forall s :: s in seen + [t] <==> s in seen || s == t;
    if seen == [] {
      assert BestOf([t], times, t, InWindow(times, t));
    } else if InWindow(times, t) > best {
      assert BestOf(seen + [t], times, t, InWindow(times, t));
    } else {
      assert BestOf(seen + [t], times, start, best);
    }
  }

  lemma {:induction false} GreatestIsLast(xs: seq<int>)
    ensures xs == [] <==> Greatest(xs).None?
    ensures xs != [] ==> Greatest(xs).value in xs && forall x :: x in xs ==> x <= Greatest(xs).value
  {
    if xs != [] {
      GreatestIsLast(xs[1..]);
      assert forall x :: x in xs <==> x == xs[0] || x in xs[1..];
    }
  }

  lemma NonEmptyWindow(times: seq<int>, t: int)
    requires t in times
    ensures InWindow(times, t) > 0
  {
    FilterMember(times, Within(t), t);
  }

  lemma {:induction false} FewerPass(xs: seq<int>, p: int -> bool, q: int -> bool)
    requires forall x :: x in xs && p(x) ==> q(x)
    ensures |Filter(xs, p)| <= |Filter(xs, q)|
  {
    if xs != [] {
      var x := xs[0];
      assert x in xs && (p(x) ==> q(x));
      FewerPass(xs[1..], p, q);
      assert |Filter(xs, p)| == One(p(x)) + |Filter(xs[1..], p)|;
      assert |Filter(xs, q)| == One(q(x)) + |Filter(xs[1..], q)|;
    }
  }

  /** Sliding a window forward to its first observed time loses nothing. */
  lemma SlideToObserved(times: seq<int>, from: int) returns (t: int)
    requires InWindow(times, from) > 0
    ensures t in times && InWindow(times, from) <= InWindow(times, t)
  {
    var inside := Filter(times, Within(from));
    t := FirstTime(inside);
    forall x | x in times && Within(from)(x) ensures Within(t)(x) {
      FilterMember(times, Within(from), x);
      FilterMember(times, Within(from), t);
    }
    FilterMember(times, Within(from), t);
    FewerPass(times, Within(from), Within(t));
  }

  lemma {:induction false} FirstTime(xs: seq<int>) returns (t: int)
    requires xs != []
    ensures t in xs && forall x :: x in xs ==> t <= x
  {
    t := xs[0];
    if |xs| > 1 {
      var rest := FirstTime(xs[1..]);
      if rest < t { t := rest; }
      assert forall x :: x in xs <==> x == xs[0] || x in xs[1..];
    }
  }

  /** Trying only the observed times as starts finds the maximum over all starts. */
  lemma ObservedStartsSuffice(times: seq<int>, start: int, best: nat)
    requires BestOf(times, times, start, best)
    ensures forall from :: InWindow(times, from) <= InWindow(times, start)
  {
    forall from ensures InWindow(times, from) <= InWindow(times, start) {
      if InWindow(times, from) > 0 {
        var t := SlideToObserved(times, from);
      }
    }
  }

  method PeakWindow(times: seq<int>) returns (start: int, end: int)
    requires times != []
    ensures IsPeak(start, end, times)
  {
    var sorted := SortBy(times, IntAtMost);
    SortPermutes(times, IntAtMost);
    SortSorts(times, IntAtMost);
    ghost var best;
    start, end, best := SearchPeak(sorted);
    PeakOfSorted(sorted, start, end, best);
    PeakPermutes(sorted, times, start, end);
  }

  method SearchPeak(sorted: seq<int>) returns (start: int, end: int, best: nat)
    requires sorted != [] && Sorted(sorted, IntAtMost)
    ensures BestOf(sorted, sorted, start, best) && Some(end) == Greatest(Filter(sorted, Within(start)))
  {
    best := 0;
    start, end := sorted[0], sorted[|sorted| - 1];
    for i := 0 to |sorted|
      invariant i == 0 ==> best == 0
      invariant i > 0 ==>
        BestOf(sorted[..i], sorted, start, best) && Some(end) == Greatest(Filter(sorted, Within(start)))
    {
      var t := sorted[i];
      assert sorted[..i + 1] == sorted[..i] + [t];
      NonEmptyWindow(sorted, t);
      BestSnoc(sorted[..i], sorted, t, start, best);
      if InWindow(sorted, t) > best {
        best, start, end := InWindow(sorted, t), t, LatestWithin(sorted, t);
      }
    }
    assert sorted[..|sorted|] == sorted;
  }

  function LatestWithin(times: seq<int>, from: int): (end: int)
    ensures from in times ==> Some(end) == Greatest(Filter(times, Within(from)))
  {
    GreatestIsLast(Filter(times, Within(from)));
    assert from in times ==> Filter(times, Within(from)) != [] by {
      if from in times { NonEmptyWindow(times, from); }
    }
    var latest := Greatest(Filter(times, Within(from)));
    if latest.Some? then latest.value else from
  }

  lemma {:induction false} PeakOfSorted(times: seq<int>, start: int, end: int, best: nat)
    requires BestOf(times, times, start, best) && Some(end) == Greatest(Filter(times, Within(start)))
    ensures IsPeak(start, end, times)
  {
    ObservedStartsSuffice(times, start, best);
    GreatestIsLast(Filter(times, Within(start)));
    FilterMember(times, Within(start), end);
    FilterMember(times, Within(start), start);
    forall t | t in times && t <= start + PEAK_WINDOW ensures t <= end {
      FilterMember(times, Within(start), t);
    }
  }

  lemma PeakPermutes(times: seq<int>, others: seq<int>, start: int, end: int)
    requires multiset(times) == multiset(others) && IsPeak(start, end, times)
    ensures IsPeak(start, end, others)
  {
    forall from ensures InWindow(times, from) == InWindow(others, from) {
      FilterPermutes(times, others, Within(from));
      assert |multiset(Filter(times, Within(from)))| == |multiset(Filter(others, Within(from)))|;
    }
    forall t ensures t in times <==> t in others {
      assert t in times <==> t in multiset(times);
    }
  }

  // ---- The waves ----

  datatype SemanticWave = SemanticWave(
    id: string,
    dominant: WaveLabel,
    start: int,
    peakStart: int,
    peakEnd: int,
    end: int,
    streamCount: nat,
    routeInstanceCount: nat,
    prefixes: seq<string>,
    peers: seq<string>,
    facets: Facets,
    eventRelative: EventRelative,
    representativeBefore: seq<U32>,
    representativeAfter: seq<U32>,
    evidenceRefs: seq<int>,
    durationSecs: int)

  function TimeOf(t: RouteTransition): int { t.Time() }

  function TimesOf(group: seq<RouteTransition>): (times: seq<int>)
    ensures |times| == |group| && forall i :: 0 <= i < |group| ==> times[i] == group[i].Time()
  {
    Map(group, TimeOf)
  }

  /** The text by which a wave tells streams apart. */
  function StreamText(s: StreamKey): string { s.collector + ":" + s.peerIp + ":" + s.prefix }

  function StreamTexts(group: seq<RouteTransition>): set<string> { set t | t in group :: StreamText(t.key.stream) }

  function RouteKeys(group: seq<RouteTransition>): set<RouteKey> { set t | t in group :: t.key }

  function DurationOf(start: int, end: int): int {
    if NumSeconds(end - start) > 0 then NumSeconds(end - start) else 0
  }

  ghost predicate IsWave(w: SemanticWave, group: seq<RouteTransition>, tp: TransitPredicate)
    requires group != []
  {
    && IsLabel(w.dominant, group, tp)
    && w.start == group[0].Time() && w.end == Last(group).Time()
    && IsPeak(w.peakStart, w.peakEnd, TimesOf(group))
    && w.streamCount == |StreamTexts(group)|
    && w.routeInstanceCount == |RouteKeys(group)|
    && w.eventRelative == RelativeOf(group, tp)
    && w.representativeBefore == PathOf(group[0].from) && w.representativeAfter == PathOf(group[0].to)
    && w.durationSecs == DurationOf(w.start, w.end)
  }

  method CountStreams(group: seq<RouteTransition>) returns (streamCount: nat, instanceCount: nat)
    ensures streamCount == |StreamTexts(group)| && instanceCount == |RouteKeys(group)|
  {
    var streams: set<string>, instances: set<RouteKey> := {}, {};
    for i := 0 to |group|
      invariant streams == StreamTexts(group[..i]) && instances == RouteKeys(group[..i])
    {
      assert group[..i + 1] == group[..i] + [group[i]];
      streams := streams + {StreamText(group[i].key.stream)};
      instances := instances + {group[i].key};
    }
    assert group[..|group|] == group;
    streamCount, instanceCount := |streams|, |instances|;
  }

  // What a wave lists.

  predicate StringBefore(a: string, b: string) { CompareString(a, b) == Less }

  /** The elements of a set, sorted, each once. */
  ghost predicate ListsStrings(list: seq<string>, elements: set<string>) {
    Sorted(list, StringBefore) && forall x :: x in list <==> x in elements
  }

  lemma StringBeforeIsStrict()
    ensures forall a, b :: StringBefore(a, b) ==> !StringBefore(b, a)
  {
    StringLawful();
    forall a, b | StringBefore(a, b) ensures !StringBefore(b, a) {
      assert CompareString(b, a) == CompareString(a, b).Reversed();
    }
  }

  method SortedStrings(elements: set<string>) returns (list: seq<string>)
    ensures ListsStrings(list, elements)
  {
    var collected := CollectSet(elements);
    list := SortBy(collected, StringAtMost);
    StringAtMostIsTotal();
    DistinctStaySo(collected, StringAtMost);
    forall i, j | 0 <= i < j < |list| ensures StringBefore(list[i], list[j]) {
      assert StringAtMost(list[i], list[j]) && list[i] != list[j];
      StringReverses(list[i], list[j]);
    }
  }

  function PrefixesOf(group: seq<RouteTransition>): set<string> { set t | t in group :: t.key.stream.prefix }

  function PeersOf(group: seq<RouteTransition>): set<string> { set t | t in group :: t.key.stream.peerIp }

  method ListPrefixesAndPeers(group: seq<RouteTransition>) returns (prefixes: seq<string>, peers: seq<string>)
    ensures ListsStrings(prefixes, PrefixesOf(group)) && ListsStrings(peers, PeersOf(group))
  {
    var prefixSet: set<string>, peerSet: set<string> := {}, {};
    for i := 0 to |group|
      invariant prefixSet == PrefixesOf(group[..i]) && peerSet == PeersOf(group[..i])
    {
      assert group[..i + 1] == group[..i] + [group[i]];
      prefixSet := prefixSet + {group[i].key.stream.prefix};
      peerSet := peerSet + {group[i].key.stream.peerIp};
    }
    assert group[..|group|] == group;
    prefixes := SortedStrings(prefixSet);
    peers := SortedStrings(peerSet);
  }

  function ObservationOf(t: RouteTransition): int { t.evidence.observationId }

  predicate IntBefore(a: int, b: int) { a < b }

  /** The observations behind the group, in order of their identifiers, each once. */
  ghost predicate ListsObservations(refs: seq<int>, group: seq<RouteTransition>) {
    Sorted(refs, IntBefore) && forall id :: id in refs <==> id in Map(group, ObservationOf)
  }

  /** Push every observation, sort, drop adjacent repetitions. */
  method ListEvidence(group: seq<RouteTransition>) returns (refs: seq<int>)
    ensures ListsObservations(refs, group)
  {
    var pushed := [];
    for i := 0 to |group|
      invariant pushed == Map(group[..i], ObservationOf)
    {
      assert group[..i + 1] == group[..i] + [group[i]];
      MapSnoc(group[..i], group[i], ObservationOf);
      pushed := pushed + [ObservationOf(group[i])];
    }
    assert group[..|group|] == group;
    var sorted := SortBy(pushed, IntAtMost);
    SortSorts(pushed, IntAtMost);
    SortPermutes(pushed, IntAtMost);
    SameItems(sorted, pushed);
    DedupSorted(sorted, IntAtMost);
    refs := Dedup(sorted);
    forall i, j | 0 <= i < j < |refs| ensures IntBefore(refs[i], refs[j]) {
      assert IntAtMost(refs[i], refs[j]);
    }
  }

  // Facets.

  datatype Facet =
    | CommunitiesChanged
    | GracefulShutdownAdded
    | GracefulShutdownRemoved
    | ReducedPrepending
    | IncreasedPrepending
    | MaterialPathChanged
    | OriginChanged
    | NextHopChanged
    | MedChanged
    | LocalPrefChanged

  predicate Shows(e: Effects, f: Facet) {
    match f
    case CommunitiesChanged => e.communitiesChanged
    case GracefulShutdownAdded => e.gracefulShutdownAdded
    case GracefulShutdownRemoved => e.gracefulShutdownRemoved
    case ReducedPrepending => e.prepend.Reduced?
    case IncreasedPrepending => e.prepend.Increased?
    case MaterialPathChanged => e.materialPathChanged
    case OriginChanged => e.originChanged
    case NextHopChanged => e.nextHopChanged
    case MedChanged => e.medChanged
    case LocalPrefChanged => e.localPrefChanged
  }

  function Showing(f: Facet): RouteTransition -> bool {
    (t: RouteTransition) => Shows(t.effects, f)
  }

  datatype Facets = Facets(
    communitiesChanged: nat,
    gracefulShutdownAdded: nat,
    gracefulShutdownRemoved: nat,
    prependReduced: nat,
    prependIncreased: nat,
    materialPathChanged: nat,
    originChanged: nat,
    nextHopChanged: nat,
    medChanged: nat,
    localPrefChanged: nat)
  {
    function Of(f: Facet): nat {
      match f
      case CommunitiesChanged => communitiesChanged
      case GracefulShutdownAdded => gracefulShutdownAdded
      case GracefulShutdownRemoved => gracefulShutdownRemoved
      case ReducedPrepending => prependReduced
      case IncreasedPrepending => prependIncreased
      case MaterialPathChanged => materialPathChanged
      case OriginChanged => originChanged
      case NextHopChanged => nextHopChanged
      case MedChanged => medChanged
      case LocalPrefChanged => localPrefChanged
    }
  }

  /** Each counter is the number of transitions that show its facet. */
  ghost predicate CountsFacets(counts: Facets, group: seq<RouteTransition>) {
    forall f: Facet :: counts.Of(f) == |Filter(group, Showing(f))|
  }

  lemma FacetsUnique(a: Facets, b: Facets)
    requires forall f: Facet :: a.Of(f) == b.Of(f)
    ensures a == b
  {
    assert a.Of(CommunitiesChanged) == b.Of(CommunitiesChanged)
      && a.Of(GracefulShutdownAdded) == b.Of(GracefulShutdownAdded);
    assert a.Of(GracefulShutdownRemoved) == b.Of(GracefulShutdownRemoved)
      && a.Of(ReducedPrepending) == b.Of(ReducedPrepending);
    assert a.Of(IncreasedPrepending) == b.Of(IncreasedPrepending)
      && a.Of(MaterialPathChanged) == b.Of(MaterialPathChanged);
    assert a.Of(OriginChanged) == b.Of(OriginChanged) && a.Of(NextHopChanged) == b.Of(NextHopChanged);
    assert a.Of(MedChanged) == b.Of(MedChanged) && a.Of(LocalPrefChanged) == b.Of(LocalPrefChanged);
  }

  function Raised(counts: Facets, e: Effects): Facets {
    Facets(
      counts.communitiesChanged + One(e.communitiesChanged),
      counts.gracefulShutdownAdded + One(e.gracefulShutdownAdded),
      counts.gracefulShutdownRemoved + One(e.gracefulShutdownRemoved),
      counts.prependReduced + One(e.prepend.Reduced?),
      counts.prependIncreased + One(e.prepend.Increased?),
      counts.materialPathChanged + One(e.materialPathChanged),
      counts.originChanged + One(e.originChanged),
      counts.nextHopChanged + One(e.nextHopChanged),
      counts.medChanged + One(e.medChanged),
      counts.localPrefChanged + One(e.localPrefChanged))
  }

  lemma RaisedOne(counts: Facets, e: Effects, f: Facet)
    ensures Raised(counts, e).Of(f) == counts.Of(f) + One(Shows(e, f))
  {
  }

  /** Raise the counter of every facet the transition shows. */
  method CountFacetsOf(counts: Facets, e: Effects) returns (next: Facets)
    ensures forall f: Facet :: next.Of(f) == counts.Of(f) + One(Shows(e, f))
  {
    next := Raised(counts, e);
    forall f: Facet { RaisedOne(counts, e, f); }
  }

  method CountFacets(group: seq<RouteTransition>) returns (counts: Facets)
    ensures CountsFacets(counts, group)
  {
    counts := Facets(0, 0, 0, 0, 0, 0, 0, 0, 0, 0);
    for i := 0 to |group|
      invariant CountsFacets(counts, group[..i])
    {
      counts := CountFacetsOf(counts, group[i].effects);
      assert group[..i + 1] == group[..i] + [group[i]];
      forall f: Facet
        ensures |Filter(group[..i + 1], Showing(f))| == |Filter(group[..i], Showing(f))|
        + One(Shows(group[i].effects, f)) {
        FilterSnoc(group[..i], group[i], Showing(f));
      }
    }
    assert group[..|group|] == group;
  }

  /** The lists and counters of a wave. */
  ghost predicate HasDetails(w: SemanticWave, group: seq<RouteTransition>) {
    && ListsStrings(w.prefixes, PrefixesOf(group)) && ListsStrings(w.peers, PeersOf(group))
    && CountsFacets(w.facets, group) && ListsObservations(w.evidenceRefs, group)
  }

  method BuildWave(group: seq<RouteTransition>, tp: TransitPredicate) returns (w: SemanticWave)
    requires group != []
    ensures IsWave(w, group, tp) && HasDetails(w, group)
  {
    var prefixes, peers := ListPrefixesAndPeers(group);
    var facets := CountFacets(group);
    var refs := ListEvidence(group);
    var start, end := group[0].Time(), Last(group).Time();
    var streamCount, instanceCount := CountStreams(group);
    var counts, relative := CountLabels(group, tp);
    var dominant := DecideLabel(counts, group, tp);
    var peakStart, peakEnd := PeakWindow(TimesOf(group));
    w := SemanticWave(
      "", dominant, start, peakStart, peakEnd, end, streamCount, instanceCount, prefixes, peers, facets, relative,
      PathOf(group[0].from), PathOf(group[0].to), refs, DurationOf(start, end));
  }

  ghost function WaveFor(tp: TransitPredicate): (SemanticWave, seq<RouteTransition>) -> bool {
    (w: SemanticWave, group: seq<RouteTransition>) => group != [] && IsWave(w, group, tp) && HasDetails(w, group)
  }

  predicate InEvent(t: RouteTransition) { t.phase.Event? }

  /** At most `maxGap` seconds apart, counting whole seconds only. */
  predicate Near(maxGap: real, a: int, b: int) { NumSeconds(b - a) as real <= maxGap }

  function NearTimes(maxGap: real): (int, int) -> bool {
    (a: int, b: int) => Near(maxGap, a, b)
  }

  function NearTransitions(maxGap: real): (RouteTransition, RouteTransition) -> bool {
    (a: RouteTransition, b: RouteTransition) => Near(maxGap, a.Time(), b.Time())
  }

  function EventsOf(ts: seq<RouteTransition>): seq<RouteTransition> {
    SortBy(Filter(ts, InEvent), Chronological)
  }

  ghost predicate Built(
      waves: seq<SemanticWave>, groups: seq<seq<RouteTransition>>, good: (SemanticWave, seq<RouteTransition>) -> bool)
  {
    |waves| == |groups| && forall i :: 0 <= i < |waves| ==> good(waves[i], groups[i])
  }

  function WaveId(i: nat): string { "wave-" + Decimal(i + 1) }

  ghost predicate AreWaves(waves: seq<SemanticWave>, groups: seq<seq<RouteTransition>>, tp: TransitPredicate) {
    Built(waves, groups, WaveFor(tp)) && forall i :: 0 <= i < |waves| ==> waves[i].id == WaveId(i)
  }

  /** What is collected since the last break, at `at`; the events before it are split. */
  ghost predicate CollectingFrom(
      at: nat, groups: seq<seq<RouteTransition>>, current: seq<RouteTransition>, seen: seq<RouteTransition>,
      near: (RouteTransition, RouteTransition) -> bool)
  {
    && at < |seen| && current == seen[at..] && Chained(current, near)
    && IsSplit(groups, seen[..at], near)
    && (groups != [] ==> at > 0 && !near(seen[at - 1], seen[at]))
  }

  ghost predicate Collecting(
      groups: seq<seq<RouteTransition>>, current: seq<RouteTransition>, seen: seq<RouteTransition>,
      near: (RouteTransition, RouteTransition) -> bool)
  {
    exists at: nat :: CollectingFrom(at, groups, current, seen, near)
  }

  lemma CollectFirst(events: seq<RouteTransition>, near: (RouteTransition, RouteTransition) -> bool)
    requires events != []
    ensures Collecting([], [events[0]], events[..1], near)
  {
    assert CollectingFrom(0, [], [events[0]], events[..1], near);
  }

  lemma CollectMore(
      groups: seq<seq<RouteTransition>>, current: seq<RouteTransition>, seen: seq<RouteTransition>,
      t: RouteTransition, near: (RouteTransition, RouteTransition) -> bool)
    requires seen != [] && Collecting(groups, current, seen, near) && near(Last(seen), t)
    ensures Collecting(groups, current + [t], seen + [t], near)
  {
    var at: nat :| CollectingFrom(at, groups, current, seen, near);
    var longer := seen + [t];
    assert longer[at..] == current + [t] && longer[..at] == seen[..at];
    assert CollectingFrom(at, groups, current + [t], longer, near);
  }

  lemma CollectAll(
      groups: seq<seq<RouteTransition>>, current: seq<RouteTransition>, seen: seq<RouteTransition>,
      near: (RouteTransition, RouteTransition) -> bool)
    requires Collecting(groups, current, seen, near)
    ensures seen != [] && current != [] && Last(current) == Last(seen)
    ensures IsSplit(groups + [current], seen, near)
  {
    var at: nat :| CollectingFrom(at, groups, current, seen, near);
    CloseRun(groups, current, seen[..at], near);
    assert seen[..at] + current == seen;
  }

  lemma StartCollecting(
      groups: seq<seq<RouteTransition>>, seen: seq<RouteTransition>, t: RouteTransition,
      near: (RouteTransition, RouteTransition) -> bool)
    requires seen != [] && IsSplit(groups, seen, near) && !near(Last(seen), t)
    ensures Collecting(groups, [t], seen + [t], near)
  {
    var longer, at := seen + [t], |seen|;
    assert longer[at..] == [t];
    assert longer[..at] == seen;
    assert Chained([t], near);
    assert CollectingFrom(at, groups, [t], longer, near);
  }

  lemma CollectNext(
      groups: seq<seq<RouteTransition>>, current: seq<RouteTransition>, seen: seq<RouteTransition>,
      t: RouteTransition, near: (RouteTransition, RouteTransition) -> bool)
    requires seen != [] && Collecting(groups, current, seen, near) && !near(Last(seen), t)
    ensures current != [] && Collecting(groups + [current], [t], seen + [t], near)
  {
    CollectAll(groups, current, seen, near);
    StartCollecting(groups + [current], seen, t, near);
  }

  lemma OneMoreSeen(events: seq<RouteTransition>, i: nat)
    requires 0 < i < |events|
    ensures events[..i + 1] == events[..i] + [events[i]] && Last(events[..i]) == events[i - 1]
  {
  }

  lemma BuiltSnoc(
      waves: seq<SemanticWave>, groups: seq<seq<RouteTransition>>, w: SemanticWave, group: seq<RouteTransition>,
      good: (SemanticWave, seq<RouteTransition>) -> bool)
    requires Built(waves, groups, good) && good(w, group)
    ensures Built(waves + [w], groups + [group], good)
  {
  }

  ghost predicate Grouped(
      waves: seq<SemanticWave>, groups: seq<seq<RouteTransition>>, ts: seq<RouteTransition>, maxGap: real,
      tp: TransitPredicate)
  {
    IsSplit(groups, EventsOf(ts), NearTransitions(maxGap)) && AreWaves(waves, groups, tp)
  }

  /** The waves of some split of the sorted events into maximal runs. */
  ghost predicate WavesOf(waves: seq<SemanticWave>, ts: seq<RouteTransition>, maxGap: real, tp: TransitPredicate) {
    exists groups :: Grouped(waves, groups, ts, maxGap, tp)
  }

  method DeriveWaves(ts: seq<RouteTransition>, maxGap: real, tp: TransitPredicate) returns (waves: seq<SemanticWave>)
    ensures WavesOf(waves, ts, maxGap, tp)
  {
    var events := SortBy(Filter(ts, InEvent), Chronological);
    if events == [] {
      assert Grouped([], [], ts, maxGap, tp);
      return [];
    }
    var current;
    ghost var groups;
    waves, current, groups := ClusterEvents(events, maxGap, tp);
    CollectAll(groups, current, events, NearTransitions(maxGap));
    waves, groups := CloseWave(waves, groups, current, tp);
    waves := NumberWaves(waves, groups, tp);
    assert Grouped(waves, groups, ts, maxGap, tp);
  }

  method CloseWave(
      waves: seq<SemanticWave>, ghost groups: seq<seq<RouteTransition>>, current: seq<RouteTransition>,
      tp: TransitPredicate)
    returns (more: seq<SemanticWave>, ghost moreGroups: seq<seq<RouteTransition>>)
    requires current != [] && Built(waves, groups, WaveFor(tp))
    ensures Built(more, moreGroups, WaveFor(tp)) && moreGroups == groups + [current]
  {
    var wave := BuildWave(current, tp);
    BuiltSnoc(waves, groups, wave, current, WaveFor(tp));
    more, moreGroups := waves + [wave], groups + [current];
  }

  /** The waves closed so far, and the one that is still being collected. */
  ghost predicate Clustered(
      waves: seq<SemanticWave>, groups: seq<seq<RouteTransition>>, current: seq<RouteTransition>,
      seen: seq<RouteTransition>, maxGap: real, tp: TransitPredicate)
  {
    && seen != [] && Collecting(groups, current, seen, NearTransitions(maxGap))
    && Built(waves, groups, WaveFor(tp))
  }

  lemma StayInWave(
      waves: seq<SemanticWave>, groups: seq<seq<RouteTransition>>, current: seq<RouteTransition>,
      seen: seq<RouteTransition>, t: RouteTransition, maxGap: real, tp: TransitPredicate)
    requires Clustered(waves, groups, current, seen, maxGap, tp) && Near(maxGap, Last(seen).Time(), t.Time())
    ensures Clustered(waves, groups, current + [t], seen + [t], maxGap, tp)
  {
    CollectMore(groups, current, seen, t, NearTransitions(maxGap));
  }

  lemma LeaveWave(
      waves: seq<SemanticWave>, groups: seq<seq<RouteTransition>>, current: seq<RouteTransition>,
      seen: seq<RouteTransition>, t: RouteTransition, maxGap: real, tp: TransitPredicate)
    requires Clustered(waves, groups, current, seen, maxGap, tp) && !Near(maxGap, Last(seen).Time(), t.Time())
    ensures current != []
    ensures forall more :: Built(more, groups + [current], WaveFor(tp)) ==>
      Clustered(more, groups + [current], [t], seen + [t], maxGap, tp)
  {
    CollectNext(groups, current, seen, t, NearTransitions(maxGap));
  }

  /** Everything but the last wave, which is still being collected. */
  method ClusterEvents(events: seq<RouteTransition>, maxGap: real, tp: TransitPredicate)
    returns (waves: seq<SemanticWave>, current: seq<RouteTransition>, ghost groups: seq<seq<RouteTransition>>)
    requires events != []
    ensures Clustered(waves, groups, current, events, maxGap, tp)
  {
    waves, current, groups := [], [events[0]], [];
    CollectFirst(events, NearTransitions(maxGap));
    for i := 1 to |events|
      invariant Clustered(waves, groups, current, events[..i], maxGap, tp)
    {
      OneMoreSeen(events, i);
      if Near(maxGap, events[i - 1].Time(), events[i].Time()) {
        StayInWave(waves, groups, current, events[..i], events[i], maxGap, tp);
        current := current + [events[i]];
      } else {
        LeaveWave(waves, groups, current, events[..i], events[i], maxGap, tp);
        waves, groups := CloseWave(waves, groups, current, tp);
        current := [events[i]];
      }
    }
    assert events[..|events|] == events;
  }

  lemma RenamedWave(w: SemanticWave, id: string, group: seq<RouteTransition>, tp: TransitPredicate)
    requires WaveFor(tp)(w, group)
    ensures WaveFor(tp)(w.(id := id), group)
  {
  }

  lemma BuiltUpdate(
      waves: seq<SemanticWave>, groups: seq<seq<RouteTransition>>, i: nat, w: SemanticWave,
      good: (SemanticWave, seq<RouteTransition>) -> bool)
    requires Built(waves, groups, good) && i < |waves| && good(w, groups[i])
    ensures Built(waves[i := w], groups, good)
  {
  }

  /** Write the identifiers, counting from 1. */
  method NumberWaves(waves: seq<SemanticWave>, ghost groups: seq<seq<RouteTransition>>, tp: TransitPredicate)
    returns (named: seq<SemanticWave>)
    requires Built(waves, groups, WaveFor(tp))
    ensures AreWaves(named, groups, tp)
  {
    named := waves;
    ghost var good := WaveFor(tp);
    for i := 0 to |waves|
      invariant Built(named, groups, good)
      invariant |named| == |waves| && forall k :: 0 <= k < i ==> named[k].id == WaveId(k)
    {
      RenamedWave(named[i], WaveId(i), groups[i], tp);
      BuiltUpdate(named, groups, i, named[i].(id := WaveId(i)), good);
      named := named[i := named[i].(id := WaveId(i))];
    }
  }
}
