/** Mapping and filtering of sequences, with the laws the other modules use. */
module Seqs {
  function Map<T, U>(xs: seq<T>, f: T -> U): seq<U> {
    seq(|xs|, i requires 0 <= i < |xs| => f(xs[i]))
  }

  function Filter<T>(xs: seq<T>, p: T -> bool): seq<T> {
    if xs == [] then []
    else (if p(xs[0]) then [xs[0]] else []) + Filter(xs[1..], p)
  }

  lemma MapSnoc<T, U>(xs: seq<T>, x: T, f: T -> U)
    ensures Map(xs + [x], f) == Map(xs, f) + [f(x)]
  {
  }

  function Flatten<T>(xss: seq<seq<T>>): seq<T> {
    if xss == [] then [] else Flatten(xss[..|xss| - 1]) + xss[|xss| - 1]
  }

  lemma ConcatTail<T>(xs: seq<T>, ys: seq<T>)
    requires xs != []
    ensures (xs + ys)[0] == xs[0] && (xs + ys)[1..] == xs[1..] + ys
  {
  }

  lemma ConcatAssociates<T>(a: seq<T>, b: seq<T>, c: seq<T>)
    ensures a + b + c == a + (b + c)
  {
  }

  lemma {:induction false} FilterConcat<T>(xs: seq<T>, ys: seq<T>, p: T -> bool)
    ensures Filter(xs + ys, p) == Filter(xs, p) + Filter(ys, p)
  {
    if xs == [] {
      assert xs + ys == ys;
    } else {
      ConcatTail(xs, ys);
      FilterConcat(xs[1..], ys, p);
      ConcatAssociates(if p(xs[0]) then [xs[0]] else [], Filter(xs[1..], p), Filter(ys, p));
    }
  }

  /** One more element at the end: the shape a loop over `xs[..i]` needs. */
  lemma {:induction false} FilterSnoc<T>(xs: seq<T>, x: T, p: T -> bool)
    ensures Filter(xs + [x], p) == Filter(xs, p) + (if p(x) then [x] else [])
  {
    FilterConcat(xs, [x], p);
    assert Filter([x], p) == if p(x) then [x] else [] by { assert [x][1..] == []; }
  }

  lemma {:induction false} FilterCount<T>(xs: seq<T>, p: T -> bool, x: T)
    ensures multiset(Filter(xs, p))[x] == if p(x) then multiset(xs)[x] else 0
  {
    if xs != [] {
      assert xs == [xs[0]] + xs[1..];
      FilterCount(xs[1..], p, x);
    }
  }

  lemma {:induction false} FilterMember<T>(xs: seq<T>, p: T -> bool, x: T)
    ensures x in Filter(xs, p) <==> x in xs && p(x)
  {
    FilterCount(xs, p, x);
    assert x in Filter(xs, p) <==> x in multiset(Filter(xs, p));
    assert x in xs <==> x in multiset(xs);
  }

  lemma RemoveAt<T>(xs: seq<T>, k: nat)
    requires k < |xs|
    ensures multiset(xs) == multiset{xs[k]} + multiset(xs[..k] + xs[k + 1..])
  {
    assert xs == xs[..k] + [xs[k]] + xs[k + 1..];
  }

  lemma MapRemoveAt<T, U>(xs: seq<T>, k: nat, f: T -> U)
    requires k < |xs|
    ensures multiset(Map(xs, f)) == multiset{f(xs[k])} + multiset(Map(xs[..k] + xs[k + 1..], f))
  {
    RemoveAt(Map(xs, f), k);
    assert Map(xs, f)[..k] + Map(xs, f)[k + 1..] == Map(xs[..k] + xs[k + 1..], f);
  }

  lemma TailElements<T>(xs: seq<T>)
    requires xs != []
    ensures multiset(xs[1..]) == multiset(xs) - multiset{xs[0]}
  {
    assert xs == [xs[0]] + xs[1..];
  }

  lemma FindIndex<T>(xs: seq<T>, x: T) returns (k: nat)
    requires x in multiset(xs)
    ensures k < |xs| && xs[k] == x
  {
    assert x in xs;
    k :| k < |xs| && xs[k] == x;
  }

  /** Where the head of one arrangement sits in another, and what is left of both without it. */
  lemma MatchHead<T>(xs: seq<T>, ys: seq<T>) returns (k: nat)
    requires xs != [] && multiset(xs) == multiset(ys)
    ensures k < |ys| && ys[k] == xs[0]
    ensures multiset(xs[1..]) == multiset(ys[..k] + ys[k + 1..])
  {
    assert xs[0] in multiset(xs);
    k := FindIndex(ys, xs[0]);
    RemoveAt(ys, k);
    TailElements(xs);
  }

  /** A permutation stays a permutation after mapping. */
  lemma {:induction false} MapPermutes<T, U>(xs: seq<T>, ys: seq<T>, f: T -> U)
    requires multiset(xs) == multiset(ys)
    ensures multiset(Map(xs, f)) == multiset(Map(ys, f))
    decreases |xs|
  {
    if xs == [] {
      EmptyPermutes(ys);
    } else {
      var k := MatchHead(xs, ys);
      MapPermutes(xs[1..], ys[..k] + ys[k + 1..], f);
      MapRemoveAt(ys, k, f);
      MapRemoveAt(xs, 0, f);
      assert xs[..0] + xs[1..] == xs[1..];
    }
  }

  lemma EmptyPermutes<T>(ys: seq<T>)
    requires multiset(ys) == multiset{}
    ensures ys == []
  {
    assert |multiset(ys)| == |ys|;
  }

  lemma {:induction false} FilterFront<T>(x: T, xs: seq<T>, p: T -> bool)
    ensures Filter([x] + xs, p) == (if p(x) then [x] else []) + Filter(xs, p)
  {
    ConcatTail([x], xs);
    assert [x][1..] == [];
    assert [] + xs == xs;
  }

  lemma MiddleFirst<T>(a: seq<T>, b: seq<T>, c: seq<T>)
    ensures multiset(a + (b + c)) == multiset(b) + multiset(a + c)
  {
  }

  lemma {:induction false} FilterRemoveAt<T>(xs: seq<T>, k: nat, p: T -> bool)
    requires k < |xs|
    ensures multiset(Filter(xs, p)) == (if p(xs[k]) then multiset{xs[k]} else multiset{})
      + multiset(Filter(xs[..k] + xs[k + 1..], p))
  {
    var before, x, after := xs[..k], xs[k], xs[k + 1..];
    assert xs == before + ([x] + after);
    FilterConcat(before, [x] + after, p);
    FilterFront(x, after, p);
    FilterConcat(before, after, p);
    MiddleFirst(Filter(before, p), if p(x) then [x] else [], Filter(after, p));
  }

  /** A permutation stays a permutation after filtering. */
  lemma {:induction false} FilterPermutes<T>(xs: seq<T>, ys: seq<T>, p: T -> bool)
    requires multiset(xs) == multiset(ys)
    ensures multiset(Filter(xs, p)) == multiset(Filter(ys, p))
    decreases |xs|
  {
    if xs == [] {
      EmptyPermutes(ys);
    } else {
      var k := MatchHead(xs, ys);
      FilterPermutes(xs[1..], ys[..k] + ys[k + 1..], p);
      FilterRemoveAt(ys, k, p);
      FilterRemoveAt(xs, 0, p);
      assert xs[..0] + xs[1..] == xs[1..];
    }
  }

  lemma {:induction false} FirstPassing<T>(xs: seq<T>, p: T -> bool) returns (k: nat)
    requires Filter(xs, p) != []
    ensures k < |xs| && xs[k] == Filter(xs, p)[0]
    ensures p(xs[k]) && forall j :: 0 <= j < k ==> !p(xs[j])
  {
    if p(xs[0]) {
      k := 0;
    } else {
      var rest := FirstPassing(xs[1..], p);
      k := rest + 1;
      forall j | 0 <= j < k ensures !p(xs[j]) {
        assert j > 0 ==> xs[1..][j - 1] == xs[j];
      }
    }
  }

  lemma MoveToFront<T>(xs: seq<T>, x: T) returns (rest: seq<T>)
    requires x in xs
    ensures multiset([x] + rest) == multiset(xs)
  {
    var i :| 0 <= i < |xs| && xs[i] == x;
    RemoveAt(xs, i);
    rest := xs[..i] + xs[i + 1..];
  }

  lemma SameItems<T>(xs: seq<T>, ys: seq<T>)
    requires multiset(xs) == multiset(ys)
    ensures |xs| == |ys| && forall x :: x in xs <==> x in ys
  {
    assert |multiset(xs)| == |multiset(ys)|;
    forall x ensures x in xs <==> x in ys {
      assert x in xs <==> x in multiset(xs);
      assert x in ys <==> x in multiset(ys);
    }
  }

  lemma CountedOnce<T>(xs: seq<T>, k: nat)
    requires k < |xs| && forall i, j :: 0 <= i < j < |xs| ==> xs[i] != xs[j]
    ensures multiset(xs)[xs[k]] == 1
  {
    RemoveAt(xs, k);
    var rest := xs[..k] + xs[k + 1..];
    assert forall i :: 0 <= i < |rest| ==> rest[i] == xs[if i < k then i else i + 1];
    assert xs[k] !in rest;
    assert xs[k] !in multiset(rest);
  }

  lemma CountedTwice<T>(xs: seq<T>, i: nat, j: nat)
    requires i < j < |xs| && xs[i] == xs[j]
    ensures multiset(xs)[xs[i]] >= 2
  {
    RemoveAt(xs, j);
    assert (xs[..j] + xs[j + 1..])[i] == xs[i];
    assert xs[i] in multiset(xs[..j] + xs[j + 1..]);
  }

  /** Every element once, where it is mentioned first. */
  function FirstMentions<T(==)>(xs: seq<T>): seq<T> {
    if xs == [] then []
    else
      var init, x := xs[..|xs| - 1], xs[|xs| - 1];
      FirstMentions(init) + if x in init then [] else [x]
  }

  lemma {:induction false} FirstMentionsMeaning<T>(xs: seq<T>)
    ensures forall x :: x in FirstMentions(xs) <==> x in xs
    ensures forall i, j :: 0 <= i < j < |FirstMentions(xs)| ==> FirstMentions(xs)[i] != FirstMentions(xs)[j]
  {
    if xs != [] {
      var init, x := xs[..|xs| - 1], xs[|xs| - 1];
      FirstMentionsMeaning(init);
      assert xs == init + [x];
    }
  }

  lemma {:induction false} FirstMentionsSnoc<T>(xs: seq<T>, x: T)
    ensures FirstMentions(xs + [x]) == FirstMentions(xs) + if x in xs then [] else [x]
  {
    assert (xs + [x])[..|xs|] == xs;
  }

  function Dedup<T(==)>(xs: seq<T>): seq<T> {
    if |xs| < 2 then xs
    else if xs[0] == xs[1] then Dedup(xs[1..])
    else [xs[0]] + Dedup(xs[1..])
  }

  function One(b: bool): nat { if b then 1 else 0 }

  predicate Rising(s: seq<nat>) { forall j, k :: 0 <= j < k < |s| ==> s[j] < s[k] }

  lemma RisingSnoc(s: seq<nat>, n: nat)
    requires Rising(s) && forall x :: x in s ==> x < n
    ensures Rising(s + [n])
  {
    forall j, k | 0 <= j < k < |s + [n]| ensures (s + [n])[j] < (s + [n])[k] {
      assert s[j] in s;
    }
  }
}
