/** Splitting a sequence into maximal runs of joined neighbours. */
module Runs {
  import opened Seqs
  import opened Sorting

  function Last<T>(run: seq<T>): T
    requires run != []
  {
    run[|run| - 1]
  }

  ghost predicate Chained<T(!new)>(run: seq<T>, joins: (T, T) -> bool) {
    forall i, j :: 0 <= i < j < |run| && j == i + 1 ==> joins(run[i], run[j])
  }

  /** The runs concatenate to `xs`; neighbours join inside a run and nowhere else. */
  ghost predicate IsSplit<T(!new)>(runs: seq<seq<T>>, xs: seq<T>, joins: (T, T) -> bool) {
    && Flatten(runs) == xs
    && (forall i :: 0 <= i < |runs| ==> runs[i] != [] && Chained(runs[i], joins))
    && (forall i, j :: 0 <= i < j < |runs| && j == i + 1 ==> !joins(Last(runs[i]), runs[j][0]))
  }

  lemma {:induction false} FlattenSnoc<T>(runs: seq<seq<T>>, run: seq<T>)
    ensures Flatten(runs + [run]) == Flatten(runs) + run
  {
    assert (runs + [run])[..|runs|] == runs;
  }

  /** Closing the run that is being collected. */
  lemma CloseRun<T(!new)>(runs: seq<seq<T>>, run: seq<T>, xs: seq<T>, joins: (T, T) -> bool)
    requires IsSplit(runs, xs, joins) && run != [] && Chained(run, joins)
    requires runs != [] ==> xs != [] && !joins(Last(xs), run[0])
    ensures IsSplit(runs + [run], xs + run, joins)
  {
    FlattenSnoc(runs, run);
    if runs != [] { LastOfFlatten(runs); }
    var all := runs + [run];
    forall i, j | 0 <= i < j < |all| && j == i + 1 ensures !joins(Last(all[i]), all[j][0]) {
      assert all[i] == runs[i];
    }
  }

  lemma {:induction false} LastOfFlatten<T>(runs: seq<seq<T>>)
    requires runs != [] && Last(runs) != []
    ensures Flatten(runs) != [] && Last(Flatten(runs)) == Last(Last(runs))
  {
  }

  /** The last run is the part of `xs` after its last break. */
  lemma LastRun<T(!new)>(runs: seq<seq<T>>, xs: seq<T>, joins: (T, T) -> bool) returns (at: nat)
    requires IsSplit(runs, xs, joins) && xs != []
    ensures runs != [] && at < |xs| && runs[|runs| - 1] == xs[at..]
    ensures at > 0 ==> !joins(xs[at - 1], xs[at])
    ensures forall i, j :: at <= i < j < |xs| && j == i + 1 ==> joins(xs[i], xs[j])
    ensures IsSplit(runs[..|runs| - 1], xs[..at], joins)
  {
    var init, last := runs[..|runs| - 1], runs[|runs| - 1];
    at := |Flatten(init)|;
    assert xs == Flatten(init) + last;
    forall i, j | at <= i < j < |xs| && j == i + 1 ensures joins(xs[i], xs[j]) {
      assert xs[i] == last[i - at] && xs[j] == last[j - at];
    }
    if init != [] { LastOfFlatten(init); }
  }

  /** There is only one way to split. */
  lemma {:induction false} SplitUnique<T(!new)>(
      runs: seq<seq<T>>, others: seq<seq<T>>, xs: seq<T>, joins: (T, T) -> bool)
    requires IsSplit(runs, xs, joins) && IsSplit(others, xs, joins)
    ensures runs == others
    decreases |xs|
  {
    if xs == [] {
      if runs != [] { LastOfFlatten(runs); }
      if others != [] { LastOfFlatten(others); }
    } else {
      var a := LastRun(runs, xs, joins);
      var b := LastRun(others, xs, joins);
      assert a == b;
      SplitUnique(runs[..|runs| - 1], others[..|others| - 1], xs[..a], joins);
      assert runs == runs[..|runs| - 1] + [xs[a..]];
      assert others == others[..|others| - 1] + [xs[a..]];
    }
  }

  function MapEach<T, U>(runs: seq<seq<T>>, f: T -> U): seq<seq<U>> {
    seq(|runs|, i requires 0 <= i < |runs| => Map(runs[i], f))
  }

  lemma {:induction false} FlattenMapped<T, U>(runs: seq<seq<T>>, f: T -> U)
    ensures Flatten(MapEach(runs, f)) == Map(Flatten(runs), f)
  {
    if runs != [] {
      FlattenMapped(runs[..|runs| - 1], f);
      assert MapEach(runs, f)[..|runs| - 1] == MapEach(runs[..|runs| - 1], f);
    }
  }

  /** A relation on a feature of the elements splits the features as it splits the elements. */
  lemma SplitMapped<T(!new), U(!new)>(
      runs: seq<seq<T>>, xs: seq<T>, f: T -> U, joins: (T, T) -> bool, joined: (U, U) -> bool)
    requires IsSplit(runs, xs, joins)
    requires forall x, y :: joins(x, y) <==> joined(f(x), f(y))
    ensures IsSplit(MapEach(runs, f), Map(xs, f), joined)
  {
    FlattenMapped(runs, f);
    var mapped := MapEach(runs, f);
    forall i, j | 0 <= i < j < |mapped| && j == i + 1 ensures !joined(Last(mapped[i]), mapped[j][0]) {
      assert !joins(Last(runs[i]), runs[j][0]);
    }
  }
}
