/** Route attributes, transit predicates, and the shape of an AS-path change. */
module Routes {
  import opened Prelude
  import opened Sorting
  import opened Orders

  type U32 = n: nat | n < 0x1_0000_0000

  datatype RouteAttributes = RouteAttributes(
    asPath: seq<U32>,
    originAsns: seq<U32>,
    nextHop: Option<string>,
    origin: Option<string>,
    med: Option<U32>,
    localPref: Option<U32>,
    atomicAggregate: bool,
    communities: seq<string>)

  datatype TransitPredicate =
    | ContainsAny(asns: seq<U32>)
    | ContainsAll(asns: seq<U32>)
    | Adjacent(a: U32, b: U32)
  {
    predicate Evaluate(path: seq<U32>) {
      match this
      case ContainsAny(asns) => exists k :: 0 <= k < |asns| && asns[k] in path
      case ContainsAll(asns) => forall k :: 0 <= k < |asns| ==> asns[k] in path
      case Adjacent(a, b) =>
        exists k :: 0 <= k < |path| - 1 && ((path[k] == a && path[k + 1] == b) || (path[k] == b && path[k + 1] == a))
    }

    /** A predicate that looks for an ASN next to itself sees prepending. */
    predicate SeesPrepending() {
      Adjacent? && a == b
    }
  }

  /** The two stand side by side somewhere in the path, the one after the other. */
  ghost predicate Follows(path: seq<U32>, a: U32, b: U32) {
    exists before, after :: path == before + [a, b] + after
  }

  lemma FollowsAt(path: seq<U32>, a: U32, b: U32)
    ensures Follows(path, a, b) <==> exists k :: 0 <= k < |path| - 1 && path[k] == a && path[k + 1] == b
  {
    if before, after :| path == before + [a, b] + after {
      assert path[|before|] == a && path[|before| + 1] == b;
    }
    if k :| 0 <= k < |path| - 1 && path[k] == a && path[k + 1] == b {
      assert path == path[..k] + [a, b] + path[k + 2..];
    }
  }

  /** Any of the numbers, all of them, or two side by side in either order. */
  lemma EvaluateMeaning(path: seq<U32>, asns: seq<U32>, a: U32, b: U32)
    ensures ContainsAny(asns).Evaluate(path) <==> (set x | x in asns) * (set x | x in path) != {}
    ensures ContainsAll(asns).Evaluate(path) <==> (set x | x in asns) <= set x | x in path
    ensures Adjacent(a, b).Evaluate(path) <==> Follows(path, a, b) || Follows(path, b, a)
  {
    var wanted, there := set x | x in asns, set x | x in path;
    if x :| x in wanted * there {
      var k :| 0 <= k < |asns| && asns[k] == x;
      assert asns[k] in path;
    }
    if k :| 0 <= k < |asns| && asns[k] in path {
      assert asns[k] in wanted * there;
    }
    forall x | x in asns && ContainsAll(asns).Evaluate(path) ensures x in path {
      var k :| 0 <= k < |asns| && asns[k] == x;
    }
    if wanted <= there {
      forall k | 0 <= k < |asns| ensures asns[k] in path { assert asns[k] in wanted; }
    }
    FollowsAt(path, a, b);
    FollowsAt(path, b, a);
  }

  // ---- Collapsing ----

  function Collapse(path: seq<U32>): seq<U32> {
    if path == [] then []
    else
      var before, asn := Collapse(path[..|path| - 1]), path[|path| - 1];
      if before != [] && before[|before| - 1] == asn then before else before + [asn]
  }

  method CollapseAsPath(path: seq<U32>) returns (collapsed: seq<U32>)
    ensures collapsed == Collapse(path)
  {
    collapsed := [];
    for i := 0 to |path|
      invariant collapsed == Collapse(path[..i])
    {
      assert path[..i + 1][..i] == path[..i];
      if collapsed == [] || collapsed[|collapsed| - 1] != path[i] {
        collapsed := collapsed + [path[i]];
      }
    }
    assert path[..|path|] == path;
  }

  lemma {:induction false} CollapseSnoc(path: seq<U32>, asn: U32)
    ensures
      var before := Collapse(path);
      Collapse(path + [asn]) == if before != [] && before[|before| - 1] == asn then before else before + [asn]
  {
    var longer := path + [asn];
    assert longer[..|longer| - 1] == path && longer[|longer| - 1] == asn;
  }

  lemma {:induction false} CollapseEnds(path: seq<U32>)
    requires path != []
    ensures Collapse(path) != [] && Collapse(path)[|Collapse(path)| - 1] == path[|path| - 1]
  {
  }

  ghost predicate NoRepeats(path: seq<U32>) {
    forall k :: 0 <= k < |path| - 1 ==> path[k] != path[k + 1]
  }

  lemma {:induction false} CollapseRemovesRepeats(path: seq<U32>)
    ensures NoRepeats(Collapse(path))
  {
    if path != [] {
      CollapseRemovesRepeats(path[..|path| - 1]);
    }
  }

  lemma {:induction false} NothingToCollapse(path: seq<U32>)
    requires NoRepeats(path)
    ensures Collapse(path) == path
  {
    if path != [] {
      var init, asn := path[..|path| - 1], path[|path| - 1];
      assert path == init + [asn];
      NothingToCollapse(init);
      assert init != [] ==> init[|init| - 1] != asn;
    }
  }

  /** Collapsing leaves no ASN beside itself, so collapsing again changes nothing. */
  lemma {:induction false} CollapseIdempotent(path: seq<U32>)
    ensures NoRepeats(Collapse(path)) && Collapse(Collapse(path)) == Collapse(path)
  {
    CollapseRemovesRepeats(path);
    NothingToCollapse(Collapse(path));
  }

  /** Prepending: repeating any element next to itself changes nothing. */
  lemma {:induction false} CollapseIgnoresPrepending(before: seq<U32>, asn: U32, after: seq<U32>)
    ensures Collapse(before + [asn, asn] + after) == Collapse(before + [asn] + after)
    decreases |after|
  {
    if after == [] {
      assert before + [asn] + after == before + [asn];
      assert before + [asn, asn] + after == (before + [asn]) + [asn];
      CollapseEnds(before + [asn]);
      CollapseSnoc(before + [asn], asn);
    } else {
      var init, last := after[..|after| - 1], after[|after| - 1];
      CollapseIgnoresPrepending(before, asn, init);
      assert before + [asn, asn] + after == (before + [asn, asn] + init) + [last];
      assert before + [asn] + after == (before + [asn] + init) + [last];
      CollapseSnoc(before + [asn, asn] + init, last);
      CollapseSnoc(before + [asn] + init, last);
    }
  }

  lemma {:induction false} CollapseKeepsMembers(path: seq<U32>, asn: U32)
    ensures asn in Collapse(path) <==> asn in path
  {
    if path != [] {
      var init := path[..|path| - 1];
      assert path == init + [path[|path| - 1]];
      CollapseKeepsMembers(init, asn);
    }
  }

  ghost predicate Touch(path: seq<U32>, a: U32, b: U32) {
    Adjacent(a, b).Evaluate(path)
  }

  lemma TouchSnoc(path: seq<U32>, asn: U32, a: U32, b: U32)
    ensures Touch(path + [asn], a, b) <==>
      Touch(path, a, b) || (path != [] && ((path[|path| - 1] == a && asn == b) || (path[|path| - 1] == b && asn == a)))
  {
    var long := path + [asn];
    if path != [] {
      assert long[|path| - 1] == path[|path| - 1] && long[|path|] == asn;
    }
    if Touch(path, a, b) {
      var k :| 0 <= k < |path| - 1 && ((path[k] == a && path[k + 1] == b) || (path[k] == b && path[k + 1] == a));
      assert long[k] == path[k] && long[k + 1] == path[k + 1];
    }
    if Touch(long, a, b) {
      var k :| 0 <= k < |long| - 1 && ((long[k] == a && long[k + 1] == b) || (long[k] == b && long[k + 1] == a));
      if k < |path| - 1 {
        assert long[k] == path[k] && long[k + 1] == path[k + 1];
      }
    }
  }

  lemma {:induction false} CollapseKeepsNeighbours(path: seq<U32>, a: U32, b: U32)
    requires a != b
    ensures Touch(Collapse(path), a, b) <==> Touch(path, a, b)
  {
    if path != [] {
      var init, asn := path[..|path| - 1], path[|path| - 1];
      assert path == init + [asn];
      CollapseKeepsNeighbours(init, a, b);
      CollapseSnoc(init, asn);
      TouchSnoc(init, asn, a, b);
      TouchSnoc(Collapse(init), asn, a, b);
      if init != [] { CollapseEnds(init); }
    }
  }

  lemma {:induction false} EvaluateCollapsed(tp: TransitPredicate, path: seq<U32>)
    requires !tp.SeesPrepending()
    ensures tp.Evaluate(Collapse(path)) <==> tp.Evaluate(path)
  {
    forall asn: U32 ensures asn in Collapse(path) <==> asn in path {
      CollapseKeepsMembers(path, asn);
    }
    match tp
    case ContainsAny(_) =>
    case ContainsAll(_) =>
    case Adjacent(a, b) => CollapseKeepsNeighbours(path, a, b);
  }

  predicate CollapsedEquivalent(p: seq<U32>, q: seq<U32>) {
    Collapse(p) == Collapse(q)
  }

  /** Prepending never alters a transit predicate, except one that asks for an ASN beside itself. */
  lemma PrependingIsInvisibleExactly(tp: TransitPredicate)
    ensures (forall p, q :: CollapsedEquivalent(p, q) ==> (tp.Evaluate(p) <==> tp.Evaluate(q))) <==>
      !tp.SeesPrepending()
  {
    if tp.SeesPrepending() {
      var p, q: seq<U32> := [tp.a, tp.a], [tp.a];
      CollapseIgnoresPrepending([], tp.a, []);
      assert [] + [tp.a, tp.a] + [] == p && [] + [tp.a] + [] == q;
      assert p[0] == tp.a && p[1] == tp.b;
      assert tp.Evaluate(p) && !tp.Evaluate(q);
    } else {
      forall p, q | CollapsedEquivalent(p, q) ensures tp.Evaluate(p) <==> tp.Evaluate(q) {
        EvaluateCollapsed(tp, p);
        EvaluateCollapsed(tp, q);
      }
    }
  }

  // ---- Classification ----

  datatype PathShapeChange =
    | PrependReduced
    | PrependIncreased
    | PathChangedStillViaRequiredTransit
    | PathDepartedRequiredTransit
    | PathReturnedToRequiredTransit
    | GenericPathChange

  function ClassifyPathChange(from: seq<U32>, to: seq<U32>, tp: TransitPredicate): PathShapeChange {
    var fromHas, toHas := tp.Evaluate(from), tp.Evaluate(to);
    if CollapsedEquivalent(from, to) then
      if |from| > |to| then PrependReduced else PrependIncreased
    else if fromHas && toHas then PathChangedStillViaRequiredTransit
    else if fromHas && !toHas then PathDepartedRequiredTransit
    else if !fromHas && toHas then PathReturnedToRequiredTransit
    else GenericPathChange
  }

  /** For every predicate: departures and returns are the changes of its value, prepending aside. */
  lemma {:induction false} ClassificationIsExact(from: seq<U32>, to: seq<U32>, tp: TransitPredicate)
    ensures ClassifyPathChange(from, to, tp) == PrependReduced <==> Collapse(from) == Collapse(to) && |to| < |from|
    ensures ClassifyPathChange(from, to, tp) == PrependIncreased <==> Collapse(from) == Collapse(to) && |from| <= |to|
    ensures ClassifyPathChange(from, to, tp) == PathChangedStillViaRequiredTransit
      <==> Collapse(from) != Collapse(to) && tp.Evaluate(from) && tp.Evaluate(to)
    ensures ClassifyPathChange(from, to, tp) == GenericPathChange
      <==> Collapse(from) != Collapse(to) && !tp.Evaluate(from) && !tp.Evaluate(to)
    ensures ClassifyPathChange(from, to, tp) == PathDepartedRequiredTransit
      <==> tp.Evaluate(from) && !tp.Evaluate(to) && !(tp.SeesPrepending() && Collapse(from) == Collapse(to))
    ensures ClassifyPathChange(from, to, tp) == PathReturnedToRequiredTransit
      <==> !tp.Evaluate(from) && tp.Evaluate(to) && !(tp.SeesPrepending() && Collapse(from) == Collapse(to))
  {
    PrependingIsInvisibleExactly(tp);
  }

  ghost predicate DeparturesAreExact(tp: TransitPredicate) {
    forall from, to :: ClassifyPathChange(from, to, tp) == PathDepartedRequiredTransit <==>
      tp.Evaluate(from) && !tp.Evaluate(to)
  }

  ghost predicate ReturnsAreExact(tp: TransitPredicate) {
    forall from, to :: ClassifyPathChange(from, to, tp) == PathReturnedToRequiredTransit <==>
      !tp.Evaluate(from) && tp.Evaluate(to)
  }

  /** For all paths, and for returns alike: exactly for the predicates that do not see prepending. */
  lemma ClassificationExactly(tp: TransitPredicate)
    ensures DeparturesAreExact(tp) <==> !tp.SeesPrepending()
    ensures ReturnsAreExact(tp) <==> !tp.SeesPrepending()
  {
    if tp.SeesPrepending() {
      var p, q: seq<U32> := [tp.a, tp.a], [tp.a];
      CollapseIgnoresPrepending([], tp.a, []);
      assert [] + [tp.a, tp.a] + [] == p && [] + [tp.a] + [] == q;
      assert CollapsedEquivalent(p, q) && CollapsedEquivalent(q, p);
      assert tp.Evaluate(p) && !tp.Evaluate(q);
      assert ClassifyPathChange(p, q, tp) != PathDepartedRequiredTransit;
      assert ClassifyPathChange(q, p, tp) != PathReturnedToRequiredTransit;
    } else {
      forall from, to {
        ClassificationIsExact(from, to, tp);
      }
    }
  }

  // ---- Semantic equality ----

  predicate StringAtMost(a: string, b: string) {
    CompareString(a, b) != Greater
  }

  lemma StringAtMostIsTotal()
    ensures TotalPreorder(StringAtMost)
    ensures forall a, b :: StringAtMost(a, b) && StringAtMost(b, a) ==> a == b
  {
    StringLawful();
    forall a, b ensures StringAtMost(a, b) || StringAtMost(b, a) {
      StringReverses(a, b);
    }
    forall a, b | StringAtMost(a, b) && StringAtMost(b, a) ensures a == b {
      StringReverses(a, b);
    }
  }

  predicate RouteSemanticallyEquivalent(a: RouteAttributes, b: RouteAttributes) {
    && a.asPath == b.asPath
    && a.originAsns == b.originAsns
    && a.origin == b.origin
    && a.nextHop == b.nextHop
    && a.med == b.med
    && a.localPref == b.localPref
    && a.atomicAggregate == b.atomicAggregate
    && SortBy(a.communities, StringAtMost) == SortBy(b.communities, StringAtMost)
  }

  /** Sorted community lists agree exactly when the multisets do; duplicates count. */
  lemma {:induction false} CommunitiesCompareAsMultisets(a: seq<string>, b: seq<string>)
    ensures SortBy(a, StringAtMost) == SortBy(b, StringAtMost) <==> multiset(a) == multiset(b)
  {
    SortPermutes(a, StringAtMost);
    SortPermutes(b, StringAtMost);
    if multiset(a) == multiset(b) {
      StringAtMostIsTotal();
      SortSorts(a, StringAtMost);
      SortSorts(b, StringAtMost);
      SortedUnique(SortBy(a, StringAtMost), SortBy(b, StringAtMost), StringAtMost);
    }
  }

  ghost predicate AtMostEach(a: seq<string>, n: nat) { forall x :: multiset(a)[x] <= n }

  ghost predicate SameSet(a: seq<string>, b: seq<string>) { forall x :: x in a <==> x in b }

  ghost predicate CompareAsSets(a: seq<string>, b: seq<string>) {
    SortBy(a, StringAtMost) == SortBy(b, StringAtMost) <==> SameSet(a, b)
  }

  /** A repeated community makes a difference, though the sets are the same. */
  lemma RepeatedCommunity()
    ensures SameSet(["x"], ["x", "x"]) && SortBy(["x"], StringAtMost) != SortBy(["x", "x"], StringAtMost)
  {
    CommunitiesCompareAsMultisets(["x"], ["x", "x"]);
    assert |multiset(["x"])| == 1 && |multiset(["x", "x"])| == 2;
  }

  lemma AtMostOneEachIsSet(a: seq<string>, b: seq<string>)
    requires AtMostEach(a, 1) && AtMostEach(b, 1)
    ensures CompareAsSets(a, b)
  {
    CommunitiesCompareAsMultisets(a, b);
    forall x ensures (x in a <==> multiset(a)[x] == 1) && (x in b <==> multiset(b)[x] == 1) {
      assert x in a <==> x in multiset(a);
      assert x in b <==> x in multiset(b);
    }
    if SameSet(a, b) {
      forall x ensures multiset(a)[x] == multiset(b)[x] {
        assert x in a <==> x in b;
      }
      assert multiset(a) == multiset(b);
    }
    if multiset(a) == multiset(b) {
      forall x ensures x in a <==> x in b { }
    }
  }

  /**
   * Lists compare as the documented sets, all those with a community at most `n` times each, exactly
   * when `n` is at most 1.
   */
  lemma CommunitiesCompareAsSetsExactly(n: nat)
    ensures (forall a, b :: AtMostEach(a, n) && AtMostEach(b, n) ==> CompareAsSets(a, b)) <==> n <= 1
  {
    if n <= 1 {
      forall a, b | AtMostEach(a, n) && AtMostEach(b, n) ensures CompareAsSets(a, b) {
        AtMostOneEachIsSet(a, b);
      }
    } else {
      RepeatedCommunity();
      assert AtMostEach(["x"], n) && AtMostEach(["x", "x"], n);
      assert !CompareAsSets(["x"], ["x", "x"]);
    }
  }

  /** Semantic equality is equality of everything but the order of the communities. */
  lemma SemanticEqualityMeaning(a: RouteAttributes, b: RouteAttributes)
    ensures RouteSemanticallyEquivalent(a, b) <==>
      a.(communities := []) == b.(communities := []) && multiset(a.communities) == multiset(b.communities)
  {
    CommunitiesCompareAsMultisets(a.communities, b.communities);
  }
}
