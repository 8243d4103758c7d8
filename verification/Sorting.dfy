/** The standard library's stable `sort_by`, as a function on sequences. */
module Sorting {
  import opened Seqs

  ghost predicate TotalPreorder<T(!new)>(le: (T, T) -> bool) {
    && (forall x, y :: le(x, y) || le(y, x))
    && (forall x, y, z :: le(x, y) && le(y, z) ==> le(x, z))
  }

  ghost predicate Sorted<T>(xs: seq<T>, le: (T, T) -> bool) {
    forall i, j :: 0 <= i < j < |xs| ==> le(xs[i], xs[j])
  }

  function Insert<T>(x: T, xs: seq<T>, le: (T, T) -> bool): seq<T> {
    if xs == [] then [x]
    else if le(x, xs[0]) then [x] + xs
    else [xs[0]] + Insert(x, xs[1..], le)
  }

  /** Sorting by `le`; elements that tie keep their order. */
  function SortBy<T>(xs: seq<T>, le: (T, T) -> bool): seq<T> {
    if xs == [] then [] else Insert(xs[0], SortBy(xs[1..], le), le)
  }

  lemma {:induction false} InsertPermutes<T>(x: T, xs: seq<T>, le: (T, T) -> bool)
    ensures multiset(Insert(x, xs, le)) == multiset{x} + multiset(xs)
  {
    if xs != [] {
      assert xs == [xs[0]] + xs[1..];
      InsertPermutes(x, xs[1..], le);
    }
  }

  lemma {:induction false} SortPermutes<T>(xs: seq<T>, le: (T, T) -> bool)
    ensures multiset(SortBy(xs, le)) == multiset(xs)
    ensures |SortBy(xs, le)| == |xs|
  {
    if xs != [] {
      SortPermutes(xs[1..], le);
      InsertPermutes(xs[0], SortBy(xs[1..], le), le);
      assert xs == [xs[0]] + xs[1..];
    }
    assert |multiset(SortBy(xs, le))| == |multiset(xs)|;
  }

  lemma {:induction false} InsertSorts<T(!new)>(x: T, xs: seq<T>, le: (T, T) -> bool)
    requires TotalPreorder(le) && Sorted(xs, le)
    ensures Sorted(Insert(x, xs, le), le)
  {
    if xs != [] && !le(x, xs[0]) {
      var rest := Insert(x, xs[1..], le);
      InsertSorts(x, xs[1..], le);
      InsertPermutes(x, xs[1..], le);
      forall j | 0 <= j < |rest| ensures le(xs[0], rest[j]) {
        assert rest[j] in multiset(rest);
      }
    }
  }

  lemma {:induction false} SortSorts<T(!new)>(xs: seq<T>, le: (T, T) -> bool)
    requires TotalPreorder(le)
    ensures Sorted(SortBy(xs, le), le)
  {
    if xs != [] {
      SortSorts(xs[1..], le);
      InsertSorts(xs[0], SortBy(xs[1..], le), le);
    }
  }

  lemma {:induction false} InsertFiltered<T(!new)>(x: T, xs: seq<T>, le: (T, T) -> bool, p: T -> bool)
    requires p(x) ==> forall y :: y in Filter(xs, p) ==> le(x, y)
    ensures Filter(Insert(x, xs, le), p) == (if p(x) then [x] else []) + Filter(xs, p)
  {
    if xs == [] || le(x, xs[0]) {
      FilterFront(x, xs, p);
      assert xs == [] ==> [x] + xs == [x];
    } else {
      var rest := xs[1..];
      assert xs == [xs[0]] + rest;
      FilterFront(xs[0], rest, p);
      forall y | y in Filter(rest, p) || (p(xs[0]) && y == xs[0]) ensures y in Filter(xs, p) { }
      assert !(p(x) && p(xs[0]));
      InsertFiltered(x, rest, le, p);
      FilterFront(xs[0], Insert(x, rest, le), p);
    }
  }

  /**
   * Stability, in the form the program relies on: a subsequence already in
   * order (its elements may tie) comes out of the sort as it went in.
   */
  lemma {:induction false} SortKeepsOrderedPart<T(!new)>(xs: seq<T>, le: (T, T) -> bool, p: T -> bool)
    requires Sorted(Filter(xs, p), le)
    ensures Filter(SortBy(xs, le), p) == Filter(xs, p)
  {
    if xs != [] {
      var tail := Filter(xs[1..], p);
      assert Sorted(tail, le) by {
        var whole := Filter(xs, p);
        var skip := if p(xs[0]) then 1 else 0;
        assert forall i :: 0 <= i < |tail| ==> tail[i] == whole[i + skip];
      }
      SortKeepsOrderedPart(xs[1..], le, p);
      forall y | p(xs[0]) && y in tail ensures le(xs[0], y) {
        var i :| 0 <= i < |tail| && tail[i] == y;
        assert Filter(xs, p)[0] == xs[0] && Filter(xs, p)[i + 1] == y;
      }
      InsertFiltered(xs[0], SortBy(xs[1..], le), le, p);
    }
  }

  lemma SortedHeads<T>(xs: seq<T>, ys: seq<T>, le: (T, T) -> bool)
    requires xs != [] && ys != [] && multiset(xs) == multiset(ys)
    requires Sorted(xs, le) && Sorted(ys, le)
    requires forall x, y :: x in xs && y in xs && le(x, y) && le(y, x) ==> x == y
    ensures xs[0] == ys[0]
  {
    assert ys[0] in multiset(ys) && xs[0] in multiset(xs);
    var i := FindIndex(xs, ys[0]);
    var j := FindIndex(ys, xs[0]);
    if i > 0 && j > 0 {
      assert le(xs[0], ys[0]) && le(ys[0], xs[0]);
    }
  }

  /** Only one arrangement is sorted when ties are equalities. */
  lemma {:induction false} SortedUnique<T(!new)>(xs: seq<T>, ys: seq<T>, le: (T, T) -> bool)
    requires Sorted(xs, le) && Sorted(ys, le) && multiset(xs) == multiset(ys)
    requires forall x, y :: x in xs && y in xs && le(x, y) && le(y, x) ==> x == y
    ensures xs == ys
    decreases |xs|
  {
    assert |multiset(xs)| == |xs| && |multiset(ys)| == |ys|;
    if xs != [] {
      SortedHeads(xs, ys, le);
      TailElements(xs);
      TailElements(ys);
      SortedUnique(xs[1..], ys[1..], le);
    }
  }

  lemma HeadNotInTail<T(!new)>(xs: seq<T>, lt: (T, T) -> bool)
    requires xs != [] && Sorted(xs, lt)
    requires forall x, y :: lt(x, y) ==> !lt(y, x)
    ensures xs[0] !in xs[1..]
  {
    forall i | 0 < i < |xs| ensures xs[i] != xs[0] {
      assert lt(xs[0], xs[i]);
    }
  }

  /** Strictly increasing sequences over one set of elements are equal. */
  lemma {:induction false} StrictlySortedUnique<T(!new)>(xs: seq<T>, ys: seq<T>, lt: (T, T) -> bool)
    requires Sorted(xs, lt) && Sorted(ys, lt)
    requires forall x, y :: lt(x, y) ==> !lt(y, x)
    requires forall x :: x in xs <==> x in ys
    ensures xs == ys
    decreases |xs|
  {
    if xs == [] {
      assert forall i :: 0 <= i < |ys| ==> ys[i] in ys;
    } else {
      assert xs[0] in ys && ys[0] in xs by { assert xs[0] in xs; }
      assert xs[0] == ys[0];
      HeadNotInTail(xs, lt);
      HeadNotInTail(ys, lt);
      forall x ensures x in xs[1..] <==> x in ys[1..] {
        assert x in xs <==> x == xs[0] || x in xs[1..];
        assert x in ys <==> x == ys[0] || x in ys[1..];
      }
      StrictlySortedUnique(xs[1..], ys[1..], lt);
    }
  }

  /** Dropping adjacent repetitions of a sorted sequence leaves every element once, in order. */
  lemma {:induction false} DedupSorted<T(!new)>(xs: seq<T>, le: (T, T) -> bool)
    requires TotalPreorder(le) && Sorted(xs, le)
    requires forall x, y :: le(x, y) && le(y, x) ==> x == y
    ensures Sorted(Dedup(xs), le) && forall i, j :: 0 <= i < j < |Dedup(xs)| ==> Dedup(xs)[i] != Dedup(xs)[j]
    ensures forall x :: x in Dedup(xs) <==> x in xs
  {
    if |xs| >= 2 {
      var rest := xs[1..];
      DedupSorted(rest, le);
      assert forall x :: x in xs <==> x == xs[0] || x in rest;
      if xs[0] != xs[1] {
        forall y | y in rest ensures le(xs[0], y) && xs[0] != y {
          var i :| 0 <= i < |rest| && rest[i] == y;
          assert le(xs[0], xs[1]) && (i > 0 ==> le(xs[1], xs[i + 1])) && le(xs[0], xs[i + 1]);
        }
      }
    }
  }

  /** The elements of a set, in whatever order it is walked. */
  method CollectSet<T(==)>(xs: set<T>) returns (collected: seq<T>)
    ensures forall x :: x in collected <==> x in xs
    ensures forall i, j :: 0 <= i < j < |collected| ==> collected[i] != collected[j]
  {
    collected := [];
    var todo := xs;
    while todo != {}
      invariant todo <= xs
      invariant forall x :: x in collected <==> x in xs && x !in todo
      invariant forall i, j :: 0 <= i < j < |collected| ==> collected[i] != collected[j]
    {
      var x :| x in todo;
      collected := collected + [x];
      todo := todo - {x};
    }
  }

  /** Sorting distinct elements puts them in strict order. */
  lemma {:induction false} DistinctStaySo<T(!new)>(xs: seq<T>, le: (T, T) -> bool)
    requires TotalPreorder(le) && forall i, j :: 0 <= i < j < |xs| ==> xs[i] != xs[j]
    ensures Sorted(SortBy(xs, le), le)
    ensures forall i, j :: 0 <= i < j < |SortBy(xs, le)| ==> SortBy(xs, le)[i] != SortBy(xs, le)[j]
    ensures forall x :: x in SortBy(xs, le) <==> x in xs
  {
    var sorted := SortBy(xs, le);
    SortSorts(xs, le);
    SortPermutes(xs, le);
    SameItems(sorted, xs);
    forall i, j | 0 <= i < j < |sorted| ensures sorted[i] != sorted[j] {
      if sorted[i] == sorted[j] {
        CountedTwice(sorted, i, j);
        var k := FindIndex(xs, sorted[i]);
        CountedOnce(xs, k);
      }
    }
  }
}
