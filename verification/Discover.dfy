/** Archive items, as a broker lists them; times are instants in nanoseconds. */
module Archives {
  datatype ArchiveItem = ArchiveItem(collectorId: string, dataType: string, tsStart: int, tsEnd: int, url: string,
    size: nat)
}

/** Which archives an analysis needs, in which order, and whether they leave gaps. */
module Discover {
  import opened Prelude
  import opened Seqs
  import opened Sorting
  import opened Orders
  import opened Archives
  import opened Lifecycle

  // ---- RIB selection ----

  predicate RibCandidate(item: ArchiveItem, warmupStart: int) {
    item.dataType == "rib" && item.tsStart <= warmupStart
  }

  /** The last of the newest candidates. */
  function SelectRib(items: seq<ArchiveItem>, warmupStart: int): Option<ArchiveItem> {
    if items == [] then None
    else
      var best, item := SelectRib(items[..|items| - 1], warmupStart), items[|items| - 1];
      if RibCandidate(item, warmupStart) && (best.None? || item.tsStart >= best.value.tsStart) then Some(item) else best
  }

  lemma {:induction false} SelectRibMeaning(items: seq<ArchiveItem>, warmupStart: int)
    ensures SelectRib(items, warmupStart).None? <==>
      forall x :: x in items ==> x.dataType != "rib" || x.tsStart > warmupStart
    ensures SelectRib(items, warmupStart).Some? ==>
      var rib := SelectRib(items, warmupStart).value;
      && rib in items && rib.dataType == "rib" && rib.tsStart <= warmupStart
      && forall x :: x in items && x.dataType == "rib" && x.tsStart <= warmupStart ==> x.tsStart <= rib.tsStart
  {
    if items != [] {
      var init := items[..|items| - 1];
      SelectRibMeaning(init, warmupStart);
      assert items == init + [items[|items| - 1]];
    }
  }

  /** The start of the chosen RIB does not depend on the input order, but which of two equally new ones it is does. */
  lemma {:induction false} RibStartIgnoresOrder(items: seq<ArchiveItem>, others: seq<ArchiveItem>, warmupStart: int)
    requires forall x :: x in items <==> x in others
    ensures SelectRib(items, warmupStart).None? <==> SelectRib(others, warmupStart).None?
    ensures SelectRib(items, warmupStart).Some? ==>
      SelectRib(items, warmupStart).value.tsStart == SelectRib(others, warmupStart).value.tsStart
  {
    SelectRibMeaning(items, warmupStart);
    SelectRibMeaning(others, warmupStart);
  }

  lemma {:induction false} RibTieFollowsInput(a: ArchiveItem, b: ArchiveItem, warmupStart: int)
    requires RibCandidate(a, warmupStart) && RibCandidate(b, warmupStart) && a.tsStart == b.tsStart
    ensures SelectRib([a, b], warmupStart) == Some(b) && SelectRib([b, a], warmupStart) == Some(a)
  {
    assert [a, b][..1] == [a] && [b, a][..1] == [b] && [a][..0] == [] && [b][..0] == [];
    assert SelectRib([a], warmupStart) == Some(a) && SelectRib([b], warmupStart) == Some(b);
  }

  ghost predicate Newest(x: ArchiveItem, items: seq<ArchiveItem>, warmupStart: int) {
    && x in items && RibCandidate(x, warmupStart)
    && forall y :: y in items && RibCandidate(y, warmupStart) ==> y.tsStart <= x.tsStart
  }

  ghost predicate NewestAgree(items: seq<ArchiveItem>, warmupStart: int) {
    forall x, y :: Newest(x, items, warmupStart) && Newest(y, items, warmupStart) ==> x == y
  }

  ghost predicate RibIgnoresOrder(items: seq<ArchiveItem>, warmupStart: int) {
    forall others :: multiset(items) == multiset(others) ==>
      SelectRib(items, warmupStart) == SelectRib(others, warmupStart)
  }

  /** Listed last, a newest candidate is the one that is chosen. */
  lemma LastListedIsChosen(items: seq<ArchiveItem>, x: ArchiveItem, warmupStart: int) returns (others: seq<ArchiveItem>)
    requires Newest(x, items, warmupStart)
    ensures multiset(items) == multiset(others) && SelectRib(others, warmupStart) == Some(x)
  {
    var rest := MoveToFront(items, x);
    others := rest + [x];
    assert multiset(others) == multiset([x] + rest);
    SameItems(items, others);
    assert others[..|others| - 1] == rest;
    SelectRibMeaning(rest, warmupStart);
    assert forall y :: y in rest ==> y in others;
  }

  /** Which RIB is chosen is independent of the input order exactly when all newest candidates are the same item. */
  lemma RibIgnoresOrderExactly(items: seq<ArchiveItem>, warmupStart: int)
    ensures RibIgnoresOrder(items, warmupStart) <==> NewestAgree(items, warmupStart)
  {
    if NewestAgree(items, warmupStart) {
      forall others | multiset(items) == multiset(others)
        ensures SelectRib(items, warmupStart) == SelectRib(others, warmupStart) {
        SameItems(items, others);
        SelectRibMeaning(items, warmupStart);
        SelectRibMeaning(others, warmupStart);
        if SelectRib(items, warmupStart).Some? {
          assert Newest(SelectRib(items, warmupStart).value, items, warmupStart);
          assert Newest(SelectRib(others, warmupStart).value, items, warmupStart);
        }
      }
    } else {
      var x, y :| Newest(x, items, warmupStart) && Newest(y, items, warmupStart) && x != y;
      var xLast := LastListedIsChosen(items, x, warmupStart);
      var yLast := LastListedIsChosen(items, y, warmupStart);
    }
  }

  // ---- UPDATE selection ----

  const TOLERANCE_MINUTES := 30

  const MINUTE := 60 * NANOS

  /** `Duration::num_minutes`: whole minutes, truncated toward zero. */
  function NumMinutes(d: int): int {
    if d >= 0 then d / MINUTE else -((-d) / MINUTE)
  }

  /** The time a file name carries, if it carries one. */
  type Naming = string -> Option<int>

  /** The broker's start, unless the file name disagrees by more than the tolerance. */
  function CanonicalStart(item: ArchiveItem, named: Naming): int {
    match named(item.url)
    case Some(time) =>
      var delta := NumMinutes(time - item.tsStart);
      if (if delta < 0 then -delta else delta) > TOLERANCE_MINUTES then time else item.tsStart
    case None => item.tsStart
  }

  /** The file name wins from 31 minutes of disagreement on, in either direction. */
  lemma CanonicalStartMeaning(item: ArchiveItem, named: Naming)
    ensures CanonicalStart(item, named) == item.tsStart || named(item.url) == Some(CanonicalStart(item, named))
    ensures named(item.url).Some? ==>
      var off := named(item.url).value - item.tsStart;
      CanonicalStart(item, named) == if -31 * MINUTE < off < 31 * MINUTE then item.tsStart else named(item.url).value
  {
    if named(item.url).Some? {
      var off := named(item.url).value - item.tsStart;
      var size := if off >= 0 then off else -off;
      assert (size / MINUTE) * MINUTE <= size < (size / MINUTE + 1) * MINUTE;
    }
  }

  /** The documented override: any disagreement beyond the tolerance. */
  predicate OverrideAsDocumented(item: ArchiveItem, named: Naming) {
    match named(item.url)
    case Some(time) =>
      var far := time - item.tsStart > TOLERANCE_MINUTES * MINUTE || item.tsStart - time > TOLERANCE_MINUTES * MINUTE;
      CanonicalStart(item, named) == if far then time else item.tsStart
    case None => CanonicalStart(item, named) == item.tsStart
  }

  /** Beyond the tolerance by less than a minute. */
  predicate Borderline(off: int) {
    var size := if off < 0 then -off else off;
    TOLERANCE_MINUTES * MINUTE < size < (TOLERANCE_MINUTES + 1) * MINUTE
  }

  /** As documented exactly when the file name does not disagree by more than 30 and less than 31 minutes. */
  lemma OverrideAsDocumentedExactly(item: ArchiveItem, named: Naming)
    ensures OverrideAsDocumented(item, named) <==>
      (named(item.url).Some? ==> !Borderline(named(item.url).value - item.tsStart))
  {
    CanonicalStartMeaning(item, named);
  }

  /** A file name that disagrees by 30 minutes and 59 seconds is not believed. */
  lemma AlmostOneMinuteMore(item: ArchiveItem, named: Naming)
    requires named(item.url) == Some(item.tsStart + TOLERANCE_MINUTES * MINUTE + 59 * NANOS)
    ensures CanonicalStart(item, named) == item.tsStart && !OverrideAsDocumented(item, named)
  {
    CanonicalStartMeaning(item, named);
  }

  datatype Window = Window(ribTimestamp: int, cooldownEnd: int)

  predicate InWindow(item: ArchiveItem, w: Window, named: Naming) {
    && item.dataType == "updates"
    && w.ribTimestamp - TOLERANCE_MINUTES * MINUTE <= CanonicalStart(item, named) <= w.cooldownEnd
  }

  function Wanted(w: Window, named: Naming): ArchiveItem -> bool {
    (item: ArchiveItem) => InWindow(item, w, named)
  }

  /** What the order of the selection looks at. */
  datatype StartAndUrl = StartAndUrl(start: int, url: string)

  function Place(item: ArchiveItem, named: Naming): StartAndUrl { StartAndUrl(CanonicalStart(item, named), item.url) }

  function ComparePlaces(a: StartAndUrl, b: StartAndUrl): Ordering {
    CompareInt(a.start, b.start).Then(CompareString(a.url, b.url))
  }

  predicate PlaceBefore(a: StartAndUrl, b: StartAndUrl) { ComparePlaces(a, b) == Less }

  function NotAfter(named: Naming): (ArchiveItem, ArchiveItem) -> bool {
    (a: ArchiveItem, b: ArchiveItem) => ComparePlaces(Place(a, named), Place(b, named)) != Greater
  }

  predicate HasUrl(items: seq<ArchiveItem>, url: string) {
    exists i :: 0 <= i < |items| && items[i].url == url
  }

  /** The first item of each URL. */
  function KeepFirst(items: seq<ArchiveItem>): seq<ArchiveItem> {
    if items == [] then []
    else
      var init, item := items[..|items| - 1], items[|items| - 1];
      KeepFirst(init) + if HasUrl(init, item.url) then [] else [item]
  }

  function Dropped(items: seq<ArchiveItem>): seq<string> {
    if items == [] then []
    else
      var init, item := items[..|items| - 1], items[|items| - 1];
      Dropped(init) + if HasUrl(init, item.url) then [item.url] else []
  }

  /** Retain what has not been seen, with the URLs of what has. */
  method DedupeUrls(items: seq<ArchiveItem>) returns (kept: seq<ArchiveItem>, removed: seq<string>)
    ensures kept == KeepFirst(items) && removed == Dropped(items)
  {
    kept, removed := [], [];
    var seen: set<string> := {};
    for i := 0 to |items|
      invariant kept == KeepFirst(items[..i]) && removed == Dropped(items[..i])
      invariant forall url :: url in seen <==> HasUrl(items[..i], url)
    {
      assert items[..i + 1][..i] == items[..i];
      HasUrlSnoc(items, i);
      if items[i].url in seen {
        removed := removed + [items[i].url];
      } else {
        seen := seen + {items[i].url};
        kept := kept + [items[i]];
      }
    }
    assert items[..|items|] == items;
  }

  lemma HasUrlSnoc(items: seq<ArchiveItem>, i: nat)
    requires i < |items|
    ensures forall url :: HasUrl(items[..i + 1], url) <==> HasUrl(items[..i], url) || items[i].url == url
  {
    var more, less := items[..i + 1], items[..i];
    forall url ensures HasUrl(more, url) <==> HasUrl(less, url) || items[i].url == url {
      if HasUrl(less, url) {
        var j :| 0 <= j < |less| && less[j].url == url;
        assert more[j].url == url;
      }
      if items[i].url == url { assert more[i].url == url; }
      if HasUrl(more, url) {
        var j :| 0 <= j < |more| && more[j].url == url;
        assert j < i ==> less[j].url == url;
      }
    }
  }

  function Selected(items: seq<ArchiveItem>, w: Window, named: Naming): seq<ArchiveItem> {
    KeepFirst(SortBy(Filter(items, Wanted(w, named)), NotAfter(named)))
  }

  /** Filter, sort, drop repeated URLs. */
  method SelectUpdates(items: seq<ArchiveItem>, w: Window, named: Naming) returns (updates: seq<ArchiveItem>)
    ensures updates == Selected(items, w, named)
  {
    updates := [];
    for i := 0 to |items|
      invariant updates == Filter(items[..i], Wanted(w, named))
    {
      assert items[..i + 1] == items[..i] + [items[i]];
      FilterSnoc(items[..i], items[i], Wanted(w, named));
      if InWindow(items[i], w, named) {
        updates := updates + [items[i]];
      }
    }
    assert items[..|items|] == items;
    updates := SortBy(updates, NotAfter(named));
    var dups;
    updates, dups := DedupeUrls(updates);
  }

  // ---- What is selected ----

  lemma PlaceOrderLawful()
    ensures Lawful(ComparePlaces)
    ensures forall a, b :: ComparePlaces(a, b) == Equal <==> a == b
  {
    StringLawful();
    var byStart := (a: StartAndUrl, b: StartAndUrl) => CompareInt(a.start, b.start);
    var byUrl := (a: StartAndUrl, b: StartAndUrl) => CompareString(a.url, b.url);
    ThenLawful(byStart, byUrl, ComparePlaces);
  }

  lemma PlacesTotal(named: Naming)
    ensures TotalPreorder(NotAfter(named))
    ensures forall a, b :: NotAfter(named)(a, b) && NotAfter(named)(b, a) <==> Place(a, named) == Place(b, named)
  {
    PlaceOrderLawful();
    forall a: ArchiveItem, b: ArchiveItem
      ensures NotAfter(named)(a, b) || NotAfter(named)(b, a)
      ensures NotAfter(named)(a, b) && NotAfter(named)(b, a) <==> Place(a, named) == Place(b, named)
    {
      assert ComparePlaces(Place(b, named), Place(a, named))
        == ComparePlaces(Place(a, named), Place(b, named)).Reversed();
    }
    forall a: ArchiveItem, b: ArchiveItem, c: ArchiveItem | NotAfter(named)(a, b) && NotAfter(named)(b, c)
      ensures NotAfter(named)(a, c)
    {
      assert ComparePlaces(Place(a, named), Place(b, named)) != Greater
        && ComparePlaces(Place(b, named), Place(c, named)) != Greater;
    }
  }

  ghost predicate FirstAt(items: seq<ArchiveItem>, k: int) {
    0 <= k < |items| && forall j :: 0 <= j < k ==> items[j].url != items[k].url
  }

  lemma FirstAtPrefix(items: seq<ArchiveItem>, n: nat)
    requires |items| == n + 1
    ensures forall k :: 0 <= k < n ==> (FirstAt(items, k) <==> FirstAt(items[..n], k))
    ensures FirstAt(items, n) <==> !HasUrl(items[..n], items[n].url)
  {
    var init := items[..n];
    if !FirstAt(items, n) {
      var j :| 0 <= j < n && items[j].url == items[n].url;
      assert init[j].url == items[n].url;
    }
  }

  ghost predicate FirstOfItsUrl(items: seq<ArchiveItem>, x: ArchiveItem) {
    exists k :: FirstAt(items, k) && items[k] == x
  }

  lemma FirstOfItsUrlStays(items: seq<ArchiveItem>, n: nat, x: ArchiveItem)
    requires |items| == n + 1 && FirstOfItsUrl(items[..n], x)
    ensures FirstOfItsUrl(items, x)
  {
    FirstAtPrefix(items, n);
    var k :| FirstAt(items[..n], k) && items[..n][k] == x;
    assert FirstAt(items, k) && items[k] == x;
  }

  lemma FirstOfItsUrlComes(items: seq<ArchiveItem>, n: nat, x: ArchiveItem)
    requires |items| == n + 1 && FirstOfItsUrl(items, x)
    ensures FirstOfItsUrl(items[..n], x) || (!HasUrl(items[..n], items[n].url) && x == items[n])
  {
    FirstAtPrefix(items, n);
    var k :| FirstAt(items, k) && items[k] == x;
    assert k == n || (FirstAt(items[..n], k) && items[..n][k] == x);
  }

  lemma LastOfItsUrl(items: seq<ArchiveItem>, n: nat)
    requires |items| == n + 1 && !HasUrl(items[..n], items[n].url)
    ensures FirstOfItsUrl(items, items[n])
  {
    FirstAtPrefix(items, n);
    assert FirstAt(items, n);
  }

  lemma FirstOfItsUrlSnoc(items: seq<ArchiveItem>, n: nat, x: ArchiveItem)
    requires |items| == n + 1
    ensures FirstOfItsUrl(items, x) <==>
      FirstOfItsUrl(items[..n], x) || (!HasUrl(items[..n], items[n].url) && x == items[n])
  {
    if FirstOfItsUrl(items, x) { FirstOfItsUrlComes(items, n, x); }
    if FirstOfItsUrl(items[..n], x) { FirstOfItsUrlStays(items, n, x); }
    if !HasUrl(items[..n], items[n].url) { LastOfItsUrl(items, n); }
  }

  /** What is kept, each URL once. */
  lemma {:induction false} KeepFirstMeaning(items: seq<ArchiveItem>)
    ensures forall x :: x in KeepFirst(items) <==> FirstOfItsUrl(items, x)
    ensures forall i, j :: 0 <= i < j < |KeepFirst(items)| ==> KeepFirst(items)[i].url != KeepFirst(items)[j].url
  {
    if items != [] {
      var n := |items| - 1;
      var init := items[..n];
      KeepFirstMeaning(init);
      forall x ensures x in KeepFirst(items) <==> FirstOfItsUrl(items, x) {
        FirstOfItsUrlSnoc(items, n, x);
      }
      forall x | x in KeepFirst(init) && !HasUrl(init, items[n].url) ensures x.url != items[n].url {
        var k :| FirstAt(init, k) && init[k] == x;
      }
    }
  }

  function UrlOf(item: ArchiveItem): string { item.url }

  lemma UrlsSnoc(items: seq<ArchiveItem>, item: ArchiveItem)
    ensures multiset(Map(items + [item], UrlOf)) == multiset(Map(items, UrlOf)) + multiset{item.url}
  {
    MapSnoc(items, item, UrlOf);
  }

  /** Kept and removed together are the URLs of all items, with multiplicity. */
  lemma {:induction false} NothingGetsLost(items: seq<ArchiveItem>)
    ensures multiset(Map(items, UrlOf)) == multiset(Map(KeepFirst(items), UrlOf)) + multiset(Dropped(items))
  {
    if items != [] {
      var init, item := items[..|items| - 1], items[|items| - 1];
      NothingGetsLost(init);
      UrlsSnoc(init, item);
      assert items == init + [item];
      if HasUrl(init, item.url) {
        assert KeepFirst(items) == KeepFirst(init) && Dropped(items) == Dropped(init) + [item.url];
      } else {
        UrlsSnoc(KeepFirst(init), item);
        assert KeepFirst(items) == KeepFirst(init) + [item] && Dropped(items) == Dropped(init);
      }
    }
  }

  lemma {:induction false} KeepFirstInOrder(items: seq<ArchiveItem>, le: (ArchiveItem, ArchiveItem) -> bool)
    requires Sorted(items, le)
    ensures Sorted(KeepFirst(items), le)
  {
    if items != [] {
      var n := |items| - 1;
      var init := items[..n];
      KeepFirstInOrder(init, le);
      KeepFirstMeaning(init);
      forall x | x in KeepFirst(init) ensures le(x, items[n]) {
        var k :| FirstAt(init, k) && init[k] == x;
      }
    }
  }

  /** The place of the first item of its URL in the window. */
  ghost predicate EarliestOfUrl(item: ArchiveItem, items: seq<ArchiveItem>, w: Window, named: Naming) {
    && item in items && InWindow(item, w, named)
    && forall other :: other in items && InWindow(other, w, named) && other.url == item.url ==>
         CanonicalStart(item, named) <= CanonicalStart(other, named)
  }

  ghost predicate PlaceSelected(p: StartAndUrl, items: seq<ArchiveItem>, w: Window, named: Naming) {
    exists item :: EarliestOfUrl(item, items, w, named) && Place(item, named) == p
  }

  lemma {:induction false} SortedWindow(items: seq<ArchiveItem>, w: Window, named: Naming)
    ensures Sorted(SortBy(Filter(items, Wanted(w, named)), NotAfter(named)), NotAfter(named))
    ensures forall x :: x in SortBy(Filter(items, Wanted(w, named)), NotAfter(named)) <==>
      x in items && InWindow(x, w, named)
  {
    PlacesTotal(named);
    var wanted := Filter(items, Wanted(w, named));
    SortSorts(wanted, NotAfter(named));
    SortPermutes(wanted, NotAfter(named));
    forall x ensures x in SortBy(wanted, NotAfter(named)) <==> x in items && InWindow(x, w, named) {
      FilterMember(items, Wanted(w, named), x);
      assert x in SortBy(wanted, NotAfter(named)) <==> x in multiset(SortBy(wanted, NotAfter(named)));
      assert x in wanted <==> x in multiset(wanted);
    }
  }

  lemma FirstHasLeastStart(sorted: seq<ArchiveItem>, named: Naming, k: int, other: ArchiveItem)
    requires Sorted(sorted, NotAfter(named)) && FirstAt(sorted, k) && other in sorted && other.url == sorted[k].url
    ensures CanonicalStart(sorted[k], named) <= CanonicalStart(other, named)
  {
    var j :| 0 <= j < |sorted| && sorted[j] == other;
    assert j >= k;
    assert j > k ==> NotAfter(named)(sorted[k], sorted[j]);
  }

  lemma KeptIsEarliest(items: seq<ArchiveItem>, w: Window, named: Naming, x: ArchiveItem)
    requires x in Selected(items, w, named)
    ensures EarliestOfUrl(x, items, w, named)
  {
    var sorted := SortBy(Filter(items, Wanted(w, named)), NotAfter(named));
    SortedWindow(items, w, named);
    KeepFirstMeaning(sorted);
    var k :| FirstAt(sorted, k) && sorted[k] == x;
    forall other | other in items && InWindow(other, w, named) && other.url == x.url
      ensures CanonicalStart(x, named) <= CanonicalStart(other, named)
    {
      FirstHasLeastStart(sorted, named, k, other);
    }
  }

  lemma EarliestIsKept(items: seq<ArchiveItem>, w: Window, named: Naming, x: ArchiveItem)
    requires EarliestOfUrl(x, items, w, named)
    ensures exists y :: y in Selected(items, w, named) && Place(y, named) == Place(x, named)
  {
    var sorted := SortBy(Filter(items, Wanted(w, named)), NotAfter(named));
    SortedWindow(items, w, named);
    var i :| 0 <= i < |sorted| && sorted[i] == x;
    var k := FirstIndex(sorted, x.url, i);
    KeepFirstMeaning(sorted);
    var y := sorted[k];
    assert y in Selected(items, w, named);
    assert y in sorted && CanonicalStart(x, named) <= CanonicalStart(y, named);
    KeptIsEarliest(items, w, named, y);
  }

  lemma {:induction false} FirstIndex(items: seq<ArchiveItem>, url: string, i: nat) returns (k: nat)
    requires i < |items| && items[i].url == url
    ensures k <= i && FirstAt(items, k) && items[k].url == url
    decreases i
  {
    if FirstAt(items, i) {
      k := i;
    } else {
      var j :| 0 <= j < i && items[j].url == items[i].url;
      k := FirstIndex(items, url, j);
    }
  }

  function PlaceBy(named: Naming): ArchiveItem -> StartAndUrl {
    (item: ArchiveItem) => Place(item, named)
  }

  function Places(items: seq<ArchiveItem>, named: Naming): seq<StartAndUrl> { Map(items, PlaceBy(named)) }

  lemma SelectionInOrder(items: seq<ArchiveItem>, w: Window, named: Naming)
    ensures Sorted(Places(Selected(items, w, named), named), PlaceBefore)
    ensures forall i, j :: 0 <= i < j < |Selected(items, w, named)| ==>
      Selected(items, w, named)[i].url != Selected(items, w, named)[j].url
  {
    var sorted := SortBy(Filter(items, Wanted(w, named)), NotAfter(named));
    var selected := Selected(items, w, named);
    SortedWindow(items, w, named);
    KeepFirstInOrder(sorted, NotAfter(named));
    KeepFirstMeaning(sorted);
    PlaceOrderLawful();
    forall i, j | 0 <= i < j < |selected| ensures PlaceBefore(Places(selected, named)[i], Places(selected, named)[j]) {
      assert NotAfter(named)(selected[i], selected[j]);
      assert selected[i].url != selected[j].url;
    }
  }

  lemma SelectionComplete(items: seq<ArchiveItem>, w: Window, named: Naming, p: StartAndUrl)
    ensures p in Places(Selected(items, w, named), named) <==> PlaceSelected(p, items, w, named)
  {
    var selected := Selected(items, w, named);
    if p in Places(selected, named) {
      var i :| 0 <= i < |selected| && Places(selected, named)[i] == p;
      KeptIsEarliest(items, w, named, selected[i]);
    }
    if PlaceSelected(p, items, w, named) {
      var x :| EarliestOfUrl(x, items, w, named) && Place(x, named) == p;
      EarliestIsKept(items, w, named, x);
      var y :| y in selected && Place(y, named) == p;
      var i :| 0 <= i < |selected| && selected[i] == y;
      assert Places(selected, named)[i] == p;
    }
  }

  /**
   * The selection is strictly ordered by canonical start, then URL; no URL comes
   * twice; and what is selected is the earliest place of every URL in the window.
   */
  lemma SelectionMeaning(items: seq<ArchiveItem>, w: Window, named: Naming)
    ensures Sorted(Places(Selected(items, w, named), named), PlaceBefore)
    ensures forall i, j :: 0 <= i < j < |Selected(items, w, named)| ==>
      Selected(items, w, named)[i].url != Selected(items, w, named)[j].url
    ensures forall p :: p in Places(Selected(items, w, named), named) <==> PlaceSelected(p, items, w, named)
  {
    SelectionInOrder(items, w, named);
    forall p { SelectionComplete(items, w, named, p); }
  }

  /** The start that counts: that of the name if it is 31 minutes (in nanoseconds) or more away from the broker's. */
  function StartByName(item: ArchiveItem, named: Naming): int {
    match named(item.url)
    case None => item.tsStart
    case Some(time) =>
      if time - item.tsStart >= 1_860_000_000_000 || item.tsStart - time >= 1_860_000_000_000 then time
      else item.tsStart
  }

  /** An UPDATE file that starts in the window, or at most half an hour before it. */
  predicate Needed(item: ArchiveItem, w: Window, named: Naming) {
    && item.dataType == "updates"
    && StartByName(item, named) >= w.ribTimestamp - 1_800_000_000_000 && StartByName(item, named) <= w.cooldownEnd
  }

  lemma NeededMeans(item: ArchiveItem, w: Window, named: Naming)
    ensures CanonicalStart(item, named) == StartByName(item, named)
    ensures InWindow(item, w, named) <==> Needed(item, w, named)
  {
    CanonicalStartMeaning(item, named);
  }

  /** By start, then URL. */
  ghost predicate StartsBefore(a: ArchiveItem, b: ArchiveItem, named: Naming) {
    || StartByName(a, named) < StartByName(b, named)
    || (StartByName(a, named) == StartByName(b, named) && Precedes(a.url, b.url))
  }

  ghost predicate NeededOnly(selected: seq<ArchiveItem>, items: seq<ArchiveItem>, w: Window, named: Naming) {
    forall x :: x in selected ==> x in items && Needed(x, w, named)
  }

  ghost predicate EachUrlEarliest(selected: seq<ArchiveItem>, items: seq<ArchiveItem>, w: Window, named: Naming) {
    forall x :: x in items && Needed(x, w, named) ==> StandsFor(selected, x, named)
  }

  /** Some selected file has the URL, and starts no later. */
  ghost predicate StandsFor(selected: seq<ArchiveItem>, x: ArchiveItem, named: Naming) {
    exists y :: y in selected && y.url == x.url && StartByName(y, named) <= StartByName(x, named)
  }

  ghost predicate InStartOrder(selected: seq<ArchiveItem>, named: Naming) {
    forall i, j :: 0 <= i < j < |selected| ==>
      StartsBefore(selected[i], selected[j], named) && selected[i].url != selected[j].url
  }

  lemma SelectedInOrder(items: seq<ArchiveItem>, w: Window, named: Naming)
    ensures InStartOrder(Selected(items, w, named), named)
  {
    var selected := Selected(items, w, named);
    SelectionInOrder(items, w, named);
    forall i, j | 0 <= i < j < |selected|
      ensures StartsBefore(selected[i], selected[j], named) && selected[i].url != selected[j].url
    {
      assert PlaceBefore(Places(selected, named)[i], Places(selected, named)[j]);
      CompareStringMeaning(selected[i].url, selected[j].url);
      NeededMeans(selected[i], w, named);
      NeededMeans(selected[j], w, named);
    }
  }

  /** Selected are needed files, one of every URL that has one, the earliest, in order. */
  lemma SelectedExactly(items: seq<ArchiveItem>, w: Window, named: Naming)
    ensures NeededOnly(Selected(items, w, named), items, w, named)
    ensures EachUrlEarliest(Selected(items, w, named), items, w, named)
    ensures InStartOrder(Selected(items, w, named), named)
  {
    var selected := Selected(items, w, named);
    forall x | x in selected ensures x in items && Needed(x, w, named) {
      KeptIsEarliest(items, w, named, x);
      NeededMeans(x, w, named);
    }
    forall x | x in items && Needed(x, w, named) ensures StandsFor(selected, x, named) {
      NeededMeans(x, w, named);
      var y := UrlIsSelected(items, w, named, x);
      NeededMeans(y, w, named);
    }
    SelectedInOrder(items, w, named);
  }

  lemma UrlIsSelected(items: seq<ArchiveItem>, w: Window, named: Naming, x: ArchiveItem) returns (y: ArchiveItem)
    requires x in items && InWindow(x, w, named)
    ensures y in Selected(items, w, named) && y.url == x.url && CanonicalStart(y, named) <= CanonicalStart(x, named)
  {
    var sorted := SortBy(Filter(items, Wanted(w, named)), NotAfter(named));
    SortedWindow(items, w, named);
    var i :| 0 <= i < |sorted| && sorted[i] == x;
    var k := FirstIndex(sorted, x.url, i);
    KeepFirstMeaning(sorted);
    y := sorted[k];
    FirstHasLeastStart(sorted, named, k, x);
  }

  /** Every order, and every repetition, of the same items selects the same starts and URLs. */
  lemma SelectionIgnoresOrder(items: seq<ArchiveItem>, others: seq<ArchiveItem>, w: Window, named: Naming)
    requires forall x :: x in items <==> x in others
    ensures Places(Selected(items, w, named), named) == Places(Selected(others, w, named), named)
  {
    SelectionMeaning(items, w, named);
    SelectionMeaning(others, w, named);
    forall x ensures EarliestOfUrl(x, items, w, named) <==> EarliestOfUrl(x, others, w, named) { }
    forall a, b | PlaceBefore(a, b) ensures !PlaceBefore(b, a) {
      PlaceOrderLawful();
      assert ComparePlaces(b, a) == ComparePlaces(a, b).Reversed();
    }
    StrictlySortedUnique(Places(Selected(items, w, named), named), Places(Selected(others, w, named), named),
      PlaceBefore);
  }

  // ---- The items themselves ----

  /** Items of one URL that share its earliest start are the same item. */
  ghost predicate EarliestAgree(items: seq<ArchiveItem>, w: Window, named: Naming) {
    forall x, y :: EarliestOfUrl(x, items, w, named) && EarliestOfUrl(y, items, w, named) && x.url == y.url ==> x == y
  }

  lemma SelectionFixed(items: seq<ArchiveItem>, others: seq<ArchiveItem>, w: Window, named: Naming)
    requires multiset(items) == multiset(others) && EarliestAgree(items, w, named)
    ensures Selected(items, w, named) == Selected(others, w, named)
  {
    forall x ensures x in items <==> x in others {
      assert x in items <==> x in multiset(items);
      assert x in others <==> x in multiset(others);
    }
    SelectionIgnoresOrder(items, others, w, named);
    var a, b := Selected(items, w, named), Selected(others, w, named);
    assert |a| == |Places(a, named)| == |b|;
    forall i | 0 <= i < |a| ensures a[i] == b[i] {
      assert Place(a[i], named) == Places(a, named)[i] == Places(b, named)[i] == Place(b[i], named);
      KeptIsEarliest(items, w, named, a[i]);
      KeptIsEarliest(others, w, named, b[i]);
      assert EarliestOfUrl(b[i], items, w, named);
    }
  }

  function SamePlace(x: ArchiveItem, named: Naming): ArchiveItem -> bool {
    (item: ArchiveItem) => Place(item, named) == Place(x, named)
  }

  /** Listed first, an earliest item is the one that is kept. */
  lemma FirstListedIsKept(x: ArchiveItem, rest: seq<ArchiveItem>, w: Window, named: Naming)
    requires EarliestOfUrl(x, [x] + rest, w, named)
    ensures x in Selected([x] + rest, w, named)
  {
    var items := [x] + rest;
    var wanted := Filter(items, Wanted(w, named));
    var sorted := SortBy(wanted, NotAfter(named));
    assert wanted[0] == x;
    SortedWindow(items, w, named);
    PlacesTotal(named);
    var ties := Filter(wanted, SamePlace(x, named));
    assert ties != [] && ties[0] == x;
    forall i, j | 0 <= i < j < |ties| ensures NotAfter(named)(ties[i], ties[j]) {
      FilterMember(wanted, SamePlace(x, named), ties[i]);
      FilterMember(wanted, SamePlace(x, named), ties[j]);
    }
    SortKeepsOrderedPart(wanted, NotAfter(named), SamePlace(x, named));
    var k := FirstPassing(sorted, SamePlace(x, named));
    forall j | 0 <= j < k ensures sorted[j].url != sorted[k].url {
      assert NotAfter(named)(sorted[j], sorted[k]);
      assert sorted[j] in sorted;
    }
    KeepFirstMeaning(sorted);
    assert FirstAt(sorted, k);
  }

  /** Two different earliest items of one URL: whichever is listed first is kept. */
  lemma ChoiceFollowsInput(items: seq<ArchiveItem>, w: Window, named: Naming, x: ArchiveItem, y: ArchiveItem)
    returns (p: seq<ArchiveItem>, q: seq<ArchiveItem>)
    requires EarliestOfUrl(x, items, w, named) && EarliestOfUrl(y, items, w, named) && x.url == y.url && x != y
    ensures multiset(items) == multiset(p) == multiset(q)
    ensures Selected(p, w, named) != Selected(q, w, named)
  {
    var front := MoveToFront(items, x);
    p := [x] + front;
    front := MoveToFront(items, y);
    q := [y] + front;
    SameItems(items, p);
    SameItems(items, q);
    FirstListedIsKept(x, p[1..], w, named);
    FirstListedIsKept(y, q[1..], w, named);
    OneItemPerUrl(p, w, named, x, y);
  }

  lemma OneItemPerUrl(items: seq<ArchiveItem>, w: Window, named: Naming, x: ArchiveItem, y: ArchiveItem)
    requires x.url == y.url && x != y
    ensures !(x in Selected(items, w, named) && y in Selected(items, w, named))
  {
    KeepFirstMeaning(SortBy(Filter(items, Wanted(w, named)), NotAfter(named)));
  }

  /** Which item stands for a URL is independent of the input order exactly when its earliest items do not differ. */
  lemma SelectionFixedExactly(items: seq<ArchiveItem>, w: Window, named: Naming)
    ensures (forall others :: multiset(items) == multiset(others) ==>
      Selected(items, w, named) == Selected(others, w, named))
      <==> EarliestAgree(items, w, named)
  {
    if EarliestAgree(items, w, named) {
      forall others | multiset(items) == multiset(others)
        ensures Selected(items, w, named) == Selected(others, w, named) {
        SelectionFixed(items, others, w, named);
      }
    } else {
      var x, y :| EarliestOfUrl(x, items, w, named) && EarliestOfUrl(y, items, w, named) && x.url == y.url && x != y;
      var p, q := ChoiceFollowsInput(items, w, named, x, y);
    }
  }

  // ---- Gaps ----

  datatype Gap = Gap(seconds: int, previousUrl: string, previousEnd: int, nextUrl: string, nextStart: int)

  predicate Apart(previous: ArchiveItem, next: ArchiveItem, tolerance: int) {
    next.tsStart - previous.tsEnd > tolerance
  }

  function GapBetween(previous: ArchiveItem, next: ArchiveItem): Gap {
    Gap(NumSeconds(next.tsStart - previous.tsEnd), previous.url, previous.tsEnd, next.url, next.tsStart)
  }

  function Gaps(updates: seq<ArchiveItem>, tolerance: int): seq<Gap> {
    if |updates| < 2 then []
    else
      var init, previous, next := updates[..|updates| - 1], updates[|updates| - 2], updates[|updates| - 1];
      Gaps(init, tolerance) + if Apart(previous, next, tolerance) then [GapBetween(previous, next)] else []
  }

  method ValidateUpdateGaps(updates: seq<ArchiveItem>, tolerance: int) returns (gaps: seq<Gap>)
    ensures gaps == Gaps(updates, tolerance)
  {
    gaps := [];
    var i := 1;
    while i < |updates|
      invariant 1 <= i && if updates == [] then gaps == [] else i <= |updates|
      invariant i <= |updates| ==> gaps == Gaps(updates[..i], tolerance)
    {
      var previous, next := updates[i - 1], updates[i];
      assert updates[..i + 1][..i] == updates[..i];
      if Apart(previous, next, tolerance) {
        gaps := gaps + [GapBetween(previous, next)];
      }
      i := i + 1;
    }
    assert updates != [] ==> updates[..|updates|] == updates;
  }

  ghost predicate GapAt(updates: seq<ArchiveItem>, tolerance: int, i: int) {
    0 <= i && i + 1 < |updates| && updates[i + 1].tsStart - updates[i].tsEnd > tolerance
  }

  /** A reported gap names the two files, the end of the one, the start of the other, and the whole seconds between. */
  ghost predicate Reports(gap: Gap, previous: ArchiveItem, next: ArchiveItem) {
    && gap.previousUrl == previous.url && gap.previousEnd == previous.tsEnd
    && gap.nextUrl == next.url && gap.nextStart == next.tsStart
    && (next.tsStart >= previous.tsEnd ==>
      gap.seconds * 1_000_000_000 <= next.tsStart - previous.tsEnd < (gap.seconds + 1) * 1_000_000_000)
  }

  /** The gap reports are about these files and their successors. */
  ghost predicate ReportsAll(gaps: seq<Gap>, updates: seq<ArchiveItem>, at: seq<nat>) {
    |gaps| == |at| && forall k :: 0 <= k < |at| ==>
      at[k] + 1 < |updates| && Reports(gaps[k], updates[at[k]], updates[at[k] + 1])
  }

  /** Where gaps are. */
  function GapPlaces(updates: seq<ArchiveItem>, tolerance: int): seq<nat> {
    if |updates| < 2 then []
    else
      var n := |updates| - 1;
      GapPlaces(updates[..n], tolerance)
        + if updates[n].tsStart - updates[n - 1].tsEnd > tolerance then [n - 1] else []
  }

  /** Every place with a gap, in order, and no other. */
  lemma {:induction false} GapPlacesMeaning(updates: seq<ArchiveItem>, tolerance: int)
    ensures forall i :: i in GapPlaces(updates, tolerance) <==> GapAt(updates, tolerance, i)
    ensures Rising(GapPlaces(updates, tolerance))
  {
    if |updates| >= 2 {
      var n := |updates| - 1;
      GapPlacesMeaning(updates[..n], tolerance);
      forall i: nat ensures i in GapPlaces(updates, tolerance) <==> GapAt(updates, tolerance, i) {
        assert i < n - 1 ==> (GapAt(updates, tolerance, i) <==> GapAt(updates[..n], tolerance, i));
      }
      forall i | i in GapPlaces(updates[..n], tolerance) ensures i < n - 1 {
        assert GapAt(updates[..n], tolerance, i);
      }
      RisingSnoc(GapPlaces(updates[..n], tolerance), n - 1);
    }
  }

  lemma GapTells(previous: ArchiveItem, next: ArchiveItem)
    ensures Reports(GapBetween(previous, next), previous, next)
  {
  }

  /** The reported gaps are those of these places, in order. */
  lemma {:induction false} GapsMeaning(updates: seq<ArchiveItem>, tolerance: int)
    ensures ReportsAll(Gaps(updates, tolerance), updates, GapPlaces(updates, tolerance))
  {
    if |updates| >= 2 {
      var n := |updates| - 1;
      GapsMeaning(updates[..n], tolerance);
      GapTells(updates[n - 1], updates[n]);
      var before, at := GapPlaces(updates[..n], tolerance), GapPlaces(updates, tolerance);
      forall k | 0 <= k < |at|
        ensures at[k] + 1 < |updates| && Reports(Gaps(updates, tolerance)[k], updates[at[k]], updates[at[k] + 1])
      {
        if k < |before| {
          assert Reports(Gaps(updates[..n], tolerance)[k], updates[..n][before[k]], updates[..n][before[k] + 1]);
        }
      }
    }
  }

  /** Some file's coverage, extended by the tolerance, contains the instant. */
  predicate Covered(t: real, updates: seq<ArchiveItem>, tolerance: int) {
    exists i :: 0 <= i < |updates| && updates[i].tsStart as real <= t <= (updates[i].tsEnd + tolerance) as real
  }

  ghost predicate Continuous(updates: seq<ArchiveItem>, tolerance: int)
    requires updates != []
  {
    forall t: real :: updates[0].tsStart as real <= t <= (updates[|updates| - 1].tsEnd + tolerance) as real ==>
      Covered(t, updates, tolerance)
  }

  /** No gap reported: nothing between the first start and the last end is missing. */
  lemma {:induction false} NoGapsMeansCovered(updates: seq<ArchiveItem>, tolerance: int, t: real)
    requires updates != [] && Gaps(updates, tolerance) == []
    requires updates[0].tsStart as real <= t <= (updates[|updates| - 1].tsEnd + tolerance) as real
    ensures Covered(t, updates, tolerance)
  {
    var n := |updates| - 1;
    if updates[n].tsStart as real <= t {
      assert updates[n].tsStart as real <= t <= (updates[n].tsEnd + tolerance) as real;
    } else {
      var init := updates[..n];
      assert !Apart(updates[n - 1], updates[n], tolerance);
      NoGapsMeansCovered(init, tolerance, t);
      var i :| 0 <= i < |init| && init[i].tsStart as real <= t <= (init[i].tsEnd + tolerance) as real;
      assert updates[i].tsStart as real <= t <= (updates[i].tsEnd + tolerance) as real;
    }
  }

  /** A gap is reported for neighbours that are too far apart, and for nothing else. */
  lemma {:induction false} ReportedExactly(updates: seq<ArchiveItem>, tolerance: int)
    ensures Gaps(updates, tolerance) != [] <==>
      exists i, j :: 0 <= i < j < |updates| && j == i + 1 && Apart(updates[i], updates[j], tolerance)
  {
    if |updates| >= 2 {
      var n := |updates| - 1;
      var init := updates[..n];
      ReportedExactly(init, tolerance);
      if Gaps(init, tolerance) != [] {
        var i, j :| 0 <= i < j < |init| && j == i + 1 && Apart(init[i], init[j], tolerance);
        assert Apart(updates[i], updates[j], tolerance);
      }
      if i, j :| 0 <= i < j < |updates| && j == i + 1 && Apart(updates[i], updates[j], tolerance) {
        assert j < n ==> Apart(init[i], init[j], tolerance);
      }
      if Apart(updates[n - 1], updates[n], tolerance) {
        assert exists i, j :: 0 <= i < j < |updates| && j == i + 1 && Apart(updates[i], updates[j], tolerance);
      }
    }
  }

  /** A gap is reported between file `i` and the next. */
  predicate Reported(updates: seq<ArchiveItem>, i: int, tolerance: int) {
    0 <= i && i + 1 < |updates| && Apart(updates[i], updates[i + 1], tolerance)
  }

  /** Nothing of what lies between the two, beyond the tolerance, is covered by any file. */
  ghost predicate Hole(updates: seq<ArchiveItem>, i: int, tolerance: int)
    requires 0 <= i && i + 1 < |updates|
  {
    forall t: real :: (updates[i].tsEnd + tolerance) as real < t < updates[i + 1].tsStart as real ==>
      !Covered(t, updates, tolerance)
  }

  ghost predicate ReportsAreHoles(updates: seq<ArchiveItem>, tolerance: int) {
    forall i :: Reported(updates, i, tolerance) ==> Hole(updates, i, tolerance)
  }

  /** The file reaches into the time between two others: it starts before the next and ends after the previous. */
  predicate Bridges(file: ArchiveItem, previous: ArchiveItem, next: ArchiveItem) {
    file.tsStart < next.tsStart && previous.tsEnd < file.tsEnd
  }

  /** A file that covers anything at all bridges a reported gap. */
  predicate BridgedBy(updates: seq<ArchiveItem>, tolerance: int, i: int, k: int) {
    && Reported(updates, i, tolerance) && 0 <= k < |updates|
    && updates[k].tsStart <= updates[k].tsEnd + tolerance && Bridges(updates[k], updates[i], updates[i + 1])
  }

  lemma BridgeCovers(updates: seq<ArchiveItem>, tolerance: int, i: int, k: int)
    requires BridgedBy(updates, tolerance, i, k)
    ensures !Hole(updates, i, tolerance)
  {
    var from := updates[i].tsEnd + tolerance;
    var t := if updates[k].tsStart > from then updates[k].tsStart as real else from as real + 0.5;
    assert updates[k].tsStart as real <= t <= (updates[k].tsEnd + tolerance) as real;
    assert Covered(t, updates, tolerance);
  }

  lemma NoBridgeMeansHole(updates: seq<ArchiveItem>, tolerance: int, i: int)
    requires Reported(updates, i, tolerance) && forall k :: !BridgedBy(updates, tolerance, i, k)
    ensures Hole(updates, i, tolerance)
  {
    forall t: real | (updates[i].tsEnd + tolerance) as real < t < updates[i + 1].tsStart as real
      ensures !Covered(t, updates, tolerance)
    {
      forall k | 0 <= k < |updates|
        ensures !(updates[k].tsStart as real <= t <= (updates[k].tsEnd + tolerance) as real)
      {
        assert !BridgedBy(updates, tolerance, i, k);
      }
    }
  }

  /** For any files and tolerance: every reported gap is a hole exactly when no file bridges one. */
  lemma ReportsAreHolesExactly(updates: seq<ArchiveItem>, tolerance: int)
    ensures ReportsAreHoles(updates, tolerance) <==> forall i, k :: !BridgedBy(updates, tolerance, i, k)
  {
    forall i | Reported(updates, i, tolerance)
      ensures Hole(updates, i, tolerance) <==> forall k :: !BridgedBy(updates, tolerance, i, k)
    {
      if k :| BridgedBy(updates, tolerance, i, k) {
        BridgeCovers(updates, tolerance, i, k);
      } else {
        NoBridgeMeansHole(updates, tolerance, i);
      }
    }
  }

  /** A file bridges the time that two neighbours leave between them. */
  predicate Straddles(updates: seq<ArchiveItem>, i: int, k: int) {
    && 0 <= i && i + 1 < |updates| && 0 <= k < |updates|
    && updates[i].tsEnd < updates[i + 1].tsStart && Bridges(updates[k], updates[i], updates[i + 1])
  }

  /** The reports are holes for every tolerance exactly when no file bridges the time between two others. */
  lemma ReportsAreHolesForEveryTolerance(updates: seq<ArchiveItem>)
    ensures (forall tolerance: nat :: ReportsAreHoles(updates, tolerance)) <==> forall i, k :: !Straddles(updates, i, k)
  {
    if i, k :| Straddles(updates, i, k) {
      // The largest tolerance that still reports the gap lets any bridging file cover something.
      var tolerance: nat := updates[i + 1].tsStart - updates[i].tsEnd - 1;
      assert BridgedBy(updates, tolerance, i, k);
      ReportsAreHolesExactly(updates, tolerance);
    } else {
      forall tolerance: nat ensures ReportsAreHoles(updates, tolerance) {
        forall i, k ensures !BridgedBy(updates, tolerance, i, k) {
          assert !Straddles(updates, i, k);
        }
        ReportsAreHolesExactly(updates, tolerance);
      }
    }
  }

  /** Otherwise a report can be spurious: the first file covers what seems to be missing. */
  lemma SpuriousGap(a: ArchiveItem, b: ArchiveItem, c: ArchiveItem)
    requires a.tsStart == 0 && a.tsEnd == 100 && b.tsStart == 10 && b.tsEnd == 20 && c.tsStart == 50 && c.tsEnd == 60
    ensures Gaps([a, b, c], 0) != [] && Continuous([a, b, c], 0)
  {
    var updates := [a, b, c];
    assert updates[1] == b && updates[2] == c && Apart(b, c, 0);
    ReportedExactly(updates, 0);
    forall t: real | 0.0 <= t <= 60.0 ensures Covered(t, updates, 0) {
      assert updates[0].tsStart as real <= t <= (updates[0].tsEnd + 0) as real;
    }
  }
}
