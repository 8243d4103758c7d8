/** The deterministic order of observations and the identifiers assigned in it. */
module ObservationOrder {
  import opened Prelude
  import opened Seqs
  import opened Sorting
  import opened Orders
  import opened Routes
  import opened Lifecycle
  import opened Observations

  function ComparePathId(p: Option<U32>, q: Option<U32>): Ordering {
    CompareInt(PathIdKey(p).0, PathIdKey(q).0).Then(CompareInt(PathIdKey(p).1, PathIdKey(q).1))
  }

  function CompareObservations(a: RouteObservation, b: RouteObservation): Ordering {
    CompareString(a.collector, b.collector)
      .Then(CompareInt(a.timestamp, b.timestamp)
      .Then(CompareInt(a.archiveOrder, b.archiveOrder)
      .Then(CompareInt(a.elementSeq, b.elementSeq)
      .Then(CompareString(a.peerIp, b.peerIp)
      .Then(CompareString(a.prefix, b.prefix)
      .Then(ComparePathId(a.pathId, b.pathId)))))))
  }

  predicate NotAfter(a: RouteObservation, b: RouteObservation) { CompareObservations(a, b) != Greater }

  /** Everything the order looks at. */
  datatype Identity = Identity(
    collector: string, timestamp: int, archiveOrder: nat, elementSeq: nat, peerIp: string, prefix: string,
      pathId: Option<U32>)

  function IdentityOf(o: RouteObservation): Identity {
    Identity(o.collector, o.timestamp, o.archiveOrder, o.elementSeq, o.peerIp, o.prefix, o.pathId)
  }

  function ById(o: RouteObservation, id: nat): RouteObservation { o.(id := id) }

  /** The observation without its identifier. */
  function Anonymous(o: RouteObservation): RouteObservation { ById(o, 0) }

  // ---- In place ----

  /** `sort_by` on the slice. */
  method SortDeterministic(a: array<RouteObservation>)
    modifies a
    ensures a[..] == SortBy(old(a[..]), NotAfter)
  {
    SortPermutes(a[..], NotAfter);
    WriteBack(a, SortBy(a[..], NotAfter));
  }

  method WriteBack(a: array<RouteObservation>, xs: seq<RouteObservation>)
    requires |xs| == a.Length
    modifies a
    ensures a[..] == xs
  {
    for i := 0 to a.Length
      invariant a[..i] == xs[..i]
    {
      a[i] := xs[i];
    }
  }

  function Numbered(xs: seq<RouteObservation>): seq<RouteObservation> {
    seq(|xs|, i requires 0 <= i < |xs| => ById(xs[i], i))
  }

  method AssignDeterministicIds(a: array<RouteObservation>)
    modifies a
    ensures a[..] == Numbered(old(a[..]))
  {
    for i := 0 to a.Length
      invariant forall k :: 0 <= k < a.Length ==> a[k] == if k < i then ById(old(a[k]), k) else old(a[k])
    {
      a[i] := a[i].(id := i);
    }
  }

  /** Sorted, then numbered. */
  function Finalized(xs: seq<RouteObservation>): seq<RouteObservation> { Numbered(SortBy(xs, NotAfter)) }

  // ---- The comparator ----

  lemma IntLawful()
    ensures Lawful(CompareInt)
  {
  }

  /** A comparison of one feature, handed on to the rest on a tie. */
  lemma FeatureLawful<T(!new)>(feature: RouteObservation -> T, cmp: (T, T) -> Ordering,
      rest: (RouteObservation, RouteObservation) -> Ordering, both: (RouteObservation, RouteObservation) -> Ordering)
    requires Lawful(cmp) && Lawful(rest)
    requires forall a, b :: both(a, b) == cmp(feature(a), feature(b)).Then(rest(a, b))
    ensures Lawful(both)
  {
    var byFeature := (a: RouteObservation, b: RouteObservation) => cmp(feature(a), feature(b));
    assert Lawful(byFeature);
    ThenLawful(byFeature, rest, both);
  }

  function ByPathId(a: RouteObservation, b: RouteObservation): Ordering { ComparePathId(a.pathId, b.pathId) }

  function ByPrefix(a: RouteObservation, b: RouteObservation): Ordering {
    CompareString(a.prefix, b.prefix).Then(ByPathId(a, b))
  }

  function ByPeer(a: RouteObservation, b: RouteObservation): Ordering {
    CompareString(a.peerIp, b.peerIp).Then(ByPrefix(a, b))
  }

  function ByElement(a: RouteObservation, b: RouteObservation): Ordering {
    CompareInt(a.elementSeq, b.elementSeq).Then(ByPeer(a, b))
  }

  function ByArchive(a: RouteObservation, b: RouteObservation): Ordering {
    CompareInt(a.archiveOrder, b.archiveOrder).Then(ByElement(a, b))
  }

  function ByTime(a: RouteObservation, b: RouteObservation): Ordering {
    CompareInt(a.timestamp, b.timestamp).Then(ByArchive(a, b))
  }

  lemma PathIdLawful()
    ensures Lawful(ComparePathId)
  {
    forall p, q ensures ComparePathId(q, p) == ComparePathId(p, q).Reversed() { }
  }

  lemma TextPartLawful()
    ensures Lawful(ByPeer)
  {
    StringLawful();
    PathIdLawful();
    assert Lawful(ByPathId);
    FeatureLawful((o: RouteObservation) => o.prefix, CompareString, ByPathId, ByPrefix);
    FeatureLawful((o: RouteObservation) => o.peerIp, CompareString, ByPrefix, ByPeer);
  }

  lemma NumberPartLawful()
    ensures Lawful(ByTime)
  {
    TextPartLawful();
    IntLawful();
    FeatureLawful((o: RouteObservation) => o.elementSeq as int, CompareInt, ByPeer, ByElement);
    FeatureLawful((o: RouteObservation) => o.archiveOrder as int, CompareInt, ByElement, ByArchive);
    FeatureLawful((o: RouteObservation) => o.timestamp, CompareInt, ByArchive, ByTime);
  }

  /** The comparator can be handed to a sort, and it ties exactly on equal identities. */
  lemma ComparatorLawful()
    ensures Lawful(CompareObservations)
    ensures forall a, b :: CompareObservations(a, b) == Equal <==> IdentityOf(a) == IdentityOf(b)
  {
    NumberPartLawful();
    StringLawful();
    FeatureLawful((o: RouteObservation) => o.collector, CompareString, ByTime, CompareObservations);
    forall a, b ensures CompareObservations(a, b) == Equal <==> IdentityOf(a) == IdentityOf(b) {
      TiesAreIdentities(a, b);
    }
  }

  lemma TiesAreIdentities(a: RouteObservation, b: RouteObservation)
    ensures CompareObservations(a, b) == Equal <==> IdentityOf(a) == IdentityOf(b)
  {
    StringReverses(a.collector, b.collector);
    StringReverses(a.peerIp, b.peerIp);
    StringReverses(a.prefix, b.prefix);
  }

  lemma UnkeyedFirst(a: RouteObservation, b: RouteObservation)
    requires IdentityOf(a).(pathId := None) == IdentityOf(b).(pathId := None) && a.pathId.None? && b.pathId.Some?
    ensures CompareObservations(a, b) == Less
  {
    StringReverses(a.collector, b.collector);
    StringReverses(a.peerIp, b.peerIp);
    StringReverses(a.prefix, b.prefix);
  }

  lemma OrderIsTotal()
    ensures TotalPreorder(NotAfter)
    ensures forall a, b :: NotAfter(a, b) && NotAfter(b, a) ==> IdentityOf(a) == IdentityOf(b)
  {
    ComparatorLawful();
    forall a, b ensures NotAfter(a, b) || NotAfter(b, a) {
      assert CompareObservations(b, a) == CompareObservations(a, b).Reversed();
    }
    forall a, b | NotAfter(a, b) && NotAfter(b, a) ensures IdentityOf(a) == IdentityOf(b) {
      assert CompareObservations(b, a) == CompareObservations(a, b).Reversed();
    }
  }

  /** The documented order, without the comparator. */
  ghost predicate InIdentityOrder(a: RouteObservation, b: RouteObservation) {
    || Precedes(a.collector, b.collector)
    || (a.collector == b.collector && (a.timestamp < b.timestamp
      || (a.timestamp == b.timestamp && (a.archiveOrder < b.archiveOrder
      || (a.archiveOrder == b.archiveOrder && (a.elementSeq < b.elementSeq
      || (a.elementSeq == b.elementSeq && (Precedes(a.peerIp, b.peerIp)
      || (a.peerIp == b.peerIp && (Precedes(a.prefix, b.prefix)
      || (a.prefix == b.prefix && IdNotAfter(a.pathId, b.pathId))))))))))))
  }

  lemma OrderIsDocumented(a: RouteObservation, b: RouteObservation)
    ensures NotAfter(a, b) <==> InIdentityOrder(a, b)
  {
    StringReverses(a.collector, b.collector);
    StringReverses(a.peerIp, b.peerIp);
    StringReverses(a.prefix, b.prefix);
    CompareStringMeaning(a.collector, b.collector);
    CompareStringMeaning(a.peerIp, b.peerIp);
    CompareStringMeaning(a.prefix, b.prefix);
    NeverBeforeItself(a);
  }

  lemma NeverBeforeItself(o: RouteObservation)
    ensures !Precedes(o.collector, o.collector) && !Precedes(o.peerIp, o.peerIp) && !Precedes(o.prefix, o.prefix)
  {
  }

  // ---- Independence of the input order ----

  ghost predicate TiesAreEqual(xs: seq<RouteObservation>) {
    forall i, j :: 0 <= i < j < |xs| && IdentityOf(xs[i]) == IdentityOf(xs[j]) ==> Anonymous(xs[i]) == Anonymous(xs[j])
  }

  ghost predicate Reordered(xs: seq<RouteObservation>, ys: seq<RouteObservation>) {
    multiset(Map(xs, Anonymous)) == multiset(Map(ys, Anonymous))
  }

  lemma SameNumbering(xs: seq<RouteObservation>, ys: seq<RouteObservation>)
    ensures Numbered(xs) == Numbered(ys) <==> Map(xs, Anonymous) == Map(ys, Anonymous)
  {
    if Map(xs, Anonymous) == Map(ys, Anonymous) {
      assert |xs| == |Map(xs, Anonymous)| == |ys|;
      forall i | 0 <= i < |xs| ensures Numbered(xs)[i] == Numbered(ys)[i] {
        assert Anonymous(xs[i]) == Map(xs, Anonymous)[i] == Map(ys, Anonymous)[i] == Anonymous(ys[i]);
        assert Numbered(xs)[i] == ById(Anonymous(xs[i]), i) == ById(Anonymous(ys[i]), i);
      }
    }
    if Numbered(xs) == Numbered(ys) {
      assert |xs| == |Numbered(xs)| == |ys|;
      forall i | 0 <= i < |xs| ensures Map(xs, Anonymous)[i] == Map(ys, Anonymous)[i] {
        assert Anonymous(xs[i]) == Anonymous(Numbered(xs)[i]) == Anonymous(Numbered(ys)[i]) == Anonymous(ys[i]);
      }
    }
  }

  lemma OrderIgnoresId(a: RouteObservation, b: RouteObservation)
    ensures NotAfter(Anonymous(a), Anonymous(b)) <==> NotAfter(a, b)
  {
  }

  lemma AnonymousInOrder(sorted: seq<RouteObservation>)
    requires Sorted(sorted, NotAfter)
    ensures Sorted(Map(sorted, Anonymous), NotAfter)
  {
    forall i, j | 0 <= i < j < |sorted| ensures NotAfter(Map(sorted, Anonymous)[i], Map(sorted, Anonymous)[j]) {
      assert NotAfter(sorted[i], sorted[j]);
      OrderIgnoresId(sorted[i], sorted[j]);
    }
  }

  lemma {:induction false} SortedAnonymous(xs: seq<RouteObservation>)
    ensures Sorted(Map(SortBy(xs, NotAfter), Anonymous), NotAfter)
    ensures multiset(Map(SortBy(xs, NotAfter), Anonymous)) == multiset(Map(xs, Anonymous))
  {
    OrderIsTotal();
    SortSorts(xs, NotAfter);
    AnonymousInOrder(SortBy(xs, NotAfter));
    SortPermutes(xs, NotAfter);
    MapPermutes(SortBy(xs, NotAfter), xs, Anonymous);
  }

  lemma TiesInSorted(xs: seq<RouteObservation>, a: seq<RouteObservation>, x: RouteObservation, y: RouteObservation)
    requires TiesAreEqual(xs) && multiset(a) == multiset(Map(xs, Anonymous))
    requires x in a && y in a && IdentityOf(x) == IdentityOf(y)
    ensures x == y
  {
    assert x in multiset(a) && y in multiset(a);
    var i := FindIndex(Map(xs, Anonymous), x);
    var j := FindIndex(Map(xs, Anonymous), y);
    assert IdentityOf(xs[i]) == IdentityOf(x) == IdentityOf(y) == IdentityOf(xs[j]);
  }

  /** Serial and parallel runs that saw the same observations end with the same sequence and identifiers. */
  lemma OrderIndependent(xs: seq<RouteObservation>, ys: seq<RouteObservation>)
    requires Reordered(xs, ys) && TiesAreEqual(xs)
    ensures Finalized(xs) == Finalized(ys)
  {
    var a, b := Map(SortBy(xs, NotAfter), Anonymous), Map(SortBy(ys, NotAfter), Anonymous);
    SortedAnonymous(xs);
    SortedAnonymous(ys);
    forall x, y | x in a && y in a && NotAfter(x, y) && NotAfter(y, x) ensures x == y {
      OrderIsTotal();
      TiesInSorted(xs, a, x, y);
    }
    SortedUnique(a, b, NotAfter);
    SameNumbering(SortBy(xs, NotAfter), SortBy(ys, NotAfter));
  }

  function WithIdentity(key: Identity): RouteObservation -> bool {
    (o: RouteObservation) => IdentityOf(o) == key
  }

  lemma {:induction false} FilterMapCommute(xs: seq<RouteObservation>, key: Identity)
    ensures Filter(Map(xs, Anonymous), WithIdentity(key)) == Map(Filter(xs, WithIdentity(key)), Anonymous)
  {
    if xs != [] {
      FilterMapCommute(xs[1..], key);
      assert Map(xs, Anonymous)[1..] == Map(xs[1..], Anonymous);
      assert IdentityOf(Anonymous(xs[0])) == IdentityOf(xs[0]);
    }
  }

  /** The first observation of an identity, in input order, comes out first. */
  lemma {:induction false} FirstStaysFirst(o: RouteObservation, rest: seq<RouteObservation>)
    ensures
      var key := WithIdentity(IdentityOf(o));
      var out := Filter(SortBy([o] + rest, NotAfter), key);
      out != [] && out[0] == o
  {
    var xs, key := [o] + rest, WithIdentity(IdentityOf(o));
    ComparatorLawful();
    assert xs[0] == o && Filter(xs, key)[0] == o;
    forall i, j | 0 <= i < j < |Filter(xs, key)| ensures NotAfter(Filter(xs, key)[i], Filter(xs, key)[j]) {
      FilterMember(xs, key, Filter(xs, key)[i]);
      FilterMember(xs, key, Filter(xs, key)[j]);
    }
    SortKeepsOrderedPart(xs, NotAfter, key);
  }

  /** Two observations that tie but differ: which one comes first depends on the input order. */
  lemma TiesLeakInputOrder(
      a: RouteObservation, b: RouteObservation, xs: seq<RouteObservation>, ys: seq<RouteObservation>)
    requires IdentityOf(a) == IdentityOf(b) && Anonymous(a) != Anonymous(b)
    ensures Finalized([a] + xs) != Finalized([b] + ys)
  {
    var key := IdentityOf(a);
    var p, q := SortBy([a] + xs, NotAfter), SortBy([b] + ys, NotAfter);
    FirstStaysFirst(a, xs);
    FirstStaysFirst(b, ys);
    FilterMapCommute(p, key);
    FilterMapCommute(q, key);
    assert Map(Filter(p, WithIdentity(key)), Anonymous)[0] == Anonymous(a);
    assert Map(Filter(q, WithIdentity(key)), Anonymous)[0] == Anonymous(b);
    SameNumbering(p, q);
  }

  lemma ToFront(xs: seq<RouteObservation>, i: nat)
    requires i < |xs|
    ensures Reordered(xs, [xs[i]] + (xs[..i] + xs[i + 1..]))
  {
    RemoveAt(xs, i);
    MapPermutes(xs, [xs[i]] + (xs[..i] + xs[i + 1..]), Anonymous);
  }

  lemma LeakingOrders(xs: seq<RouteObservation>, i: nat, j: nat)
    returns (ys: seq<RouteObservation>, zs: seq<RouteObservation>)
    requires i < |xs| && j < |xs| && IdentityOf(xs[i]) == IdentityOf(xs[j]) && Anonymous(xs[i]) != Anonymous(xs[j])
    ensures Reordered(xs, ys) && Reordered(xs, zs) && Finalized(ys) != Finalized(zs)
  {
    ys, zs := [xs[i]] + (xs[..i] + xs[i + 1..]), [xs[j]] + (xs[..j] + xs[j + 1..]);
    ToFront(xs, i);
    ToFront(xs, j);
    TiesLeakInputOrder(xs[i], xs[j], xs[..i] + xs[i + 1..], xs[..j] + xs[j + 1..]);
  }

  ghost predicate SameForEveryOrder(xs: seq<RouteObservation>) {
    forall ys :: Reordered(xs, ys) ==> Finalized(xs) == Finalized(ys)
  }

  /**
   * The result is the same for every order of the input exactly when observations that tie differ in
   * nothing but the identifier.
   */
  lemma OrderIndependentExactly(xs: seq<RouteObservation>)
    ensures SameForEveryOrder(xs) <==> TiesAreEqual(xs)
  {
    if TiesAreEqual(xs) {
      forall ys | Reordered(xs, ys) ensures Finalized(xs) == Finalized(ys) {
        OrderIndependent(xs, ys);
      }
    } else {
      var i, j :| 0 <= i < j < |xs| && IdentityOf(xs[i]) == IdentityOf(xs[j]) && Anonymous(xs[i]) != Anonymous(xs[j]);
      var ys, zs := LeakingOrders(xs, i, j);
      assert Finalized(xs) != Finalized(ys) || Finalized(xs) != Finalized(zs);
    }
  }

  lemma NumberedInOrder(sorted: seq<RouteObservation>)
    requires Sorted(sorted, NotAfter)
    ensures Sorted(Numbered(sorted), NotAfter)
  {
    forall i, j | 0 <= i < j < |sorted| ensures NotAfter(Numbered(sorted)[i], Numbered(sorted)[j]) {
      assert NotAfter(sorted[i], sorted[j]);
      OrderIgnoresId(sorted[i], sorted[j]);
      OrderIgnoresId(Numbered(sorted)[i], Numbered(sorted)[j]);
    }
  }

  /** Identifiers are 0..n-1 in identity order, and nothing but identifiers changed. */
  lemma FinalizedMeaning(xs: seq<RouteObservation>)
    ensures |Finalized(xs)| == |xs| && forall i :: 0 <= i < |xs| ==> Finalized(xs)[i].id == i
    ensures forall i, j :: 0 <= i < j < |xs| ==> InIdentityOrder(Finalized(xs)[i], Finalized(xs)[j])
    ensures Reordered(xs, Finalized(xs))
  {
    var sorted := SortBy(xs, NotAfter);
    SortPermutes(xs, NotAfter);
    OrderIsTotal();
    SortSorts(xs, NotAfter);
    NumberedInOrder(sorted);
    MapPermutes(sorted, xs, Anonymous);
    assert Map(Numbered(sorted), Anonymous) == Map(sorted, Anonymous);
    forall i, j | 0 <= i < j < |xs| ensures InIdentityOrder(Finalized(xs)[i], Finalized(xs)[j]) {
      assert NotAfter(Numbered(sorted)[i], Numbered(sorted)[j]);
      OrderIsDocumented(Numbered(sorted)[i], Numbered(sorted)[j]);
    }
  }
}
