/**
 * Three-way comparison as `Ord::cmp` and `Ordering::then_with` give it, and
 * the law every comparator handed to a sort must obey.
 */
module Orders {
  datatype Ordering = Less | Equal | Greater {
    function Then(next: Ordering): Ordering {
      if Equal? then next else this
    }

    function Reversed(): Ordering {
      match this case Less => Greater case Equal => Equal case Greater => Less
    }
  }

  /** A lawful comparator: reversing the arguments reverses the answer, and "not greater" is transitive. */
  ghost predicate Lawful<T(!new)>(cmp: (T, T) -> Ordering) {
    && (forall x, y :: cmp(y, x) == cmp(x, y).Reversed())
    && (forall x, y, z :: cmp(x, y) != Greater && cmp(y, z) != Greater ==> cmp(x, z) != Greater)
  }

  function CompareInt(a: int, b: int): Ordering {
    if a < b then Less else if a == b then Equal else Greater
  }

  /** Strings compare by their first differing character; a proper prefix comes first. */
  function CompareString(a: string, b: string): Ordering {
    if a == [] then (if b == [] then Equal else Less)
    else if b == [] then Greater
    else CompareInt(a[0] as int, b[0] as int).Then(CompareString(a[1..], b[1..]))
  }

  lemma {:induction false} StringReverses(a: string, b: string)
    ensures CompareString(b, a) == CompareString(a, b).Reversed()
    ensures CompareString(a, b) == Equal <==> a == b
  {
    if a != [] && b != [] {
      StringReverses(a[1..], b[1..]);
      assert a == [a[0]] + a[1..] && b == [b[0]] + b[1..];
    }
  }

  lemma {:induction false} StringTransitive(a: string, b: string, c: string)
    requires CompareString(a, b) != Greater && CompareString(b, c) != Greater
    ensures CompareString(a, c) != Greater
  {
    if a != [] && b != [] && c != [] && a[0] == b[0] == c[0] {
      StringTransitive(a[1..], b[1..], c[1..]);
    }
  }

  /** At place `n` the strings differ for the first time, and there `a` has ended or has the smaller character. */
  predicate SmallerAt(a: string, b: string, n: int) {
    0 <= n <= |a| && n < |b| && a[..n] == b[..n] && (n == |a| || a[n] < b[n])
  }

  ghost predicate Precedes(a: string, b: string) { exists n :: SmallerAt(a, b, n) }

  lemma SmallerLater(a: string, b: string, n: int)
    requires a != [] && b != [] && a[0] == b[0]
    ensures SmallerAt(a[1..], b[1..], n) <==> n >= 0 && SmallerAt(a, b, n + 1)
  {
    if 0 <= n && n < |a| && n < |b| {
      assert a[..n + 1] == [a[0]] + a[1..][..n] && b[..n + 1] == [b[0]] + b[1..][..n];
      assert a[..n + 1][1..] == a[1..][..n] && b[..n + 1][1..] == b[1..][..n];
    }
  }

  lemma {:induction false} CompareStringMeaning(a: string, b: string)
    ensures CompareString(a, b) == Less <==> Precedes(a, b)
  {
    if a == [] {
      assert b != [] ==> SmallerAt(a, b, 0);
    } else if b != [] && a[0] == b[0] {
      CompareStringMeaning(a[1..], b[1..]);
      if n :| SmallerAt(a[1..], b[1..], n) {
        SmallerLater(a, b, n);
      }
      if n :| SmallerAt(a, b, n) {
        SmallerLater(a, b, n - 1);
      }
    } else if b != [] {
      DifferentHeads(a, b);
    }
  }

  lemma DifferentHeads(a: string, b: string)
    requires a != [] && b != [] && a[0] != b[0]
    ensures Precedes(a, b) <==> a[0] < b[0]
  {
    if a[0] < b[0] {
      assert SmallerAt(a, b, 0);
    }
    if n :| SmallerAt(a, b, n) {
      SameHeadBefore(a, b, n);
    }
  }

  lemma SameHeadBefore(a: string, b: string, n: int)
    requires a != [] && b != [] && SmallerAt(a, b, n)
    ensures n > 0 ==> a[0] == b[0]
  {
    if n > 0 {
      assert a[..n][0] == a[0] && b[..n][0] == b[0];
    }
  }

  lemma StringLawful()
    ensures Lawful(CompareString)
    ensures forall a, b :: CompareString(a, b) == Equal <==> a == b
  {
    forall a, b
      ensures CompareString(b, a) == CompareString(a, b).Reversed() && (CompareString(a, b) == Equal <==> a == b) {
      StringReverses(a, b);
    }
    forall a, b, c | CompareString(a, b) != Greater && CompareString(b, c) != Greater
      ensures CompareString(a, c) != Greater
    {
      StringTransitive(a, b, c);
    }
  }

  /** Comparing by a first criterion and breaking ties by a second is lawful again. */
  lemma ThenLawful<T(!new)>(first: (T, T) -> Ordering, second: (T, T) -> Ordering, both: (T, T) -> Ordering)
    requires Lawful(first) && Lawful(second)
    requires forall x, y :: both(x, y) == first(x, y).Then(second(x, y))
    ensures Lawful(both)
  {
    forall x, y ensures both(y, x) == both(x, y).Reversed() {
      assert first(y, x) == first(x, y).Reversed();
      assert second(y, x) == second(x, y).Reversed();
    }
    forall x, y, z | both(x, y) != Greater && both(y, z) != Greater ensures both(x, z) != Greater {
      assert first(x, y) != Greater && first(y, z) != Greater;
      assert first(x, z) != Greater;
      if first(x, z) == Equal {
        assert first(z, x) == Equal;
        assert first(y, x) == first(x, y).Reversed() && first(z, y) == first(y, z).Reversed();
        assert first(x, y) == Equal by {
          if first(x, y) == Less {
            assert first(y, z) != Greater && first(z, x) != Greater;
            assert first(y, x) != Greater;
          }
        }
        assert first(y, z) == Equal by {
          if first(y, z) == Less {
            assert first(z, x) != Greater && first(x, y) != Greater;
            assert first(z, y) != Greater;
          }
        }
        assert second(x, y) != Greater && second(y, z) != Greater;
      }
    }
  }
}
