/**
 * Rendering values as text, the way `to_string`, `join` and the `{:?}` format
 * do, and the lemmas that say which renderings can be read back.
 */
module Text {
  import opened Prelude
  import opened Seqs

  // ---- Splitting at a separator ----

  /** The first character outside `inside` ends the token, wherever it came from. */
  lemma {:induction false} TokenEnds(a: string, c: char, x: string, b: string, d: char, y: string, inside: char -> bool)
    requires a + [c] + x == b + [d] + y
    requires (forall k :: 0 <= k < |a| ==> inside(a[k])) && (forall k :: 0 <= k < |b| ==> inside(b[k]))
    requires !inside(c) && !inside(d)
    ensures a == b && c == d && x == y
  {
    var s := a + [c] + x;
    assert s[|a|] == c && forall k :: 0 <= k < |a| ==> s[k] == a[k];
    assert s[|b|] == d && forall k :: 0 <= k < |b| ==> s[k] == b[k];
    assert |a| == |b|;
    assert a == s[..|a|] && b == s[..|b|];
    assert x == s[|a| + 1..] && y == s[|b| + 1..];
  }

  // ---- Numbers ----

  predicate IsDigit(c: char) { '0' <= c <= '9' }

  function Digit(d: nat): char
    requires d < 10
  {
    '0' + d as char
  }

  function Decimal(n: nat): (s: string)
    ensures s != [] && forall k :: 0 <= k < |s| ==> IsDigit(s[k])
  {
    if n < 10 then [Digit(n)] else Decimal(n / 10) + [Digit(n % 10)]
  }

  function DigitValue(c: char): nat
    requires IsDigit(c)
  {
    c as int - '0' as int
  }

  function Value(s: string): nat
    requires forall k :: 0 <= k < |s| ==> IsDigit(s[k])
  {
    if s == [] then 0 else 10 * Value(s[..|s| - 1]) + DigitValue(s[|s| - 1])
  }

  lemma {:induction false} DecimalReadsBack(n: nat)
    ensures Value(Decimal(n)) == n
  {
    if n >= 10 {
      DecimalReadsBack(n / 10);
      assert Decimal(n)[..|Decimal(n)| - 1] == Decimal(n / 10);
    } else {
      assert [Digit(n)][..0] == [];
    }
  }

  lemma {:induction false} DecimalInjective(m: nat, n: nat)
    requires Decimal(m) == Decimal(n)
    ensures m == n
  {
    DecimalReadsBack(m);
    DecimalReadsBack(n);
  }

  // ---- Quoted strings, as `{:?}` prints them ----

  function Escaped(c: char): string {
    if c == '"' then "\\\""
    else if c == '\\' then "\\\\"
    else if c == '\n' then "\\n"
    else if c == '\r' then "\\r"
    else if c == '\t' then "\\t"
    else if c == '\0' then "\\0"
    else [c]
  }

  function EscapedToQuote(s: string): string {
    if s == [] then "\"" else Escaped(s[0]) + EscapedToQuote(s[1..])
  }

  function Quoted(s: string): string {
    "\"" + EscapedToQuote(s)
  }

  lemma EscapedReadsBack(c: char, x: string, d: char, y: string)
    requires Escaped(c) + x == Escaped(d) + y
    ensures c == d && x == y
  {
    var s, t := Escaped(c) + x, Escaped(d) + y;
    assert s[0] == Escaped(c)[0] && t[0] == Escaped(d)[0];
    assert |Escaped(c)| == |Escaped(d)|;
    assert |Escaped(c)| == 2 ==> s[1] == Escaped(c)[1] && t[1] == Escaped(d)[1];
    assert x == s[|Escaped(c)|..] && y == t[|Escaped(d)|..];
  }

  lemma {:induction false} QuoteReadsBack(a: string, x: string, b: string, y: string)
    requires EscapedToQuote(a) + x == EscapedToQuote(b) + y
    ensures a == b && x == y
  {
    var s := EscapedToQuote(a) + x;
    if a == [] || b == [] {
      assert s[0] == EscapedToQuote(a)[0] && s[0] == EscapedToQuote(b)[0];
      assert a == [] && b == [];
      assert x == s[1..] && y == s[1..];
    } else {
      ConcatAssociates(Escaped(a[0]), EscapedToQuote(a[1..]), x);
      ConcatAssociates(Escaped(b[0]), EscapedToQuote(b[1..]), y);
      EscapedReadsBack(a[0], EscapedToQuote(a[1..]) + x, b[0], EscapedToQuote(b[1..]) + y);
      QuoteReadsBack(a[1..], x, b[1..], y);
      assert a == [a[0]] + a[1..] && b == [b[0]] + b[1..];
    }
  }

  // ---- Anything that ends at a delimiter ----

  /** Followed by one of the stop characters, the rendering can be read back. */
  ghost predicate Delimited<T(!new)>(e: T -> string, stops: set<char>) {
    && (forall x :: e(x) != [] && e(x)[0] !in stops)
    && (forall x, c, u, y, d, v :: ReadsBack(e, stops, x, c, u, y, d, v))
  }

  ghost predicate ReadsBack<T>(e: T -> string, stops: set<char>, x: T, c: char, u: string, y: T, d: char, v: string) {
    c in stops && d in stops && e(x) + [c] + u == e(y) + [d] + v ==> x == y && c == d && u == v
  }

  lemma DecimalDelimited(stops: set<char>)
    requires forall c :: c in stops ==> !IsDigit(c)
    ensures Delimited<nat>(Decimal, stops)
  {
    forall x: nat, c, u, y: nat, d, v ensures ReadsBack(Decimal, stops, x, c, u, y, d, v) {
      if c in stops && d in stops && Decimal(x) + [c] + u == Decimal(y) + [d] + v {
        TokenEnds(Decimal(x), c, u, Decimal(y), d, v, IsDigit);
        DecimalInjective(x, y);
      }
    }
  }

  lemma {:induction false} QuotedTail(x: string, c: char, u: string)
    ensures (Quoted(x) + [c] + u)[1..] == EscapedToQuote(x) + ([c] + u)
  {
  }

  lemma QuotedDelimited(stops: set<char>)
    requires '"' !in stops
    ensures Delimited(Quoted, stops)
  {
    forall x, c, u, y, d, v ensures ReadsBack(Quoted, stops, x, c, u, y, d, v) {
      if c in stops && d in stops && Quoted(x) + [c] + u == Quoted(y) + [d] + v {
        QuotedTail(x, c, u);
        QuotedTail(y, d, v);
        QuoteReadsBack(x, [c] + u, y, [d] + v);
        assert ([c] + u)[0] == c && ([d] + v)[0] == d && ([c] + u)[1..] == u && ([d] + v)[1..] == v;
      }
    }
  }

  // ---- Lists ----

  function Join<T>(xs: seq<T>, e: T -> string, sep: string): string {
    if xs == [] then "" else if |xs| == 1 then e(xs[0]) else e(xs[0]) + sep + Join(xs[1..], e, sep)
  }

  /** A list rendered with `Join`, closed by a character that no element starts with, can be read back. */
  lemma {:induction false} JoinReadsBack<T(!new)>(
      xs: seq<T>, u: string, ys: seq<T>, v: string, e: T -> string, sep: string, end: char)
    requires sep != [] && sep[0] != end && Delimited(e, {sep[0], end})
    requires Join(xs, e, sep) + [end] + u == Join(ys, e, sep) + [end] + v
    ensures xs == ys && u == v
  {
    var s := Join(xs, e, sep) + [end] + u;
    JoinHead(xs, u, e, sep, end);
    JoinHead(ys, v, e, sep, end);
    if xs == [] || ys == [] {
      assert u == s[1..] && v == s[1..];
    } else {
      var c, x := Next(xs, u, e, sep, end);
      var d, y := Next(ys, v, e, sep, end);
      assert ReadsBack(e, {sep[0], end}, xs[0], c, x, ys[0], d, y);
      if |xs| > 1 {
        assert sep[1..] + (Join(xs[1..], e, sep) + [end] + u) == sep[1..] + (Join(ys[1..], e, sep) + [end] + v);
        DropCommon(sep[1..], Join(xs[1..], e, sep) + [end] + u, Join(ys[1..], e, sep) + [end] + v);
        JoinReadsBack(xs[1..], u, ys[1..], v, e, sep, end);
      }
      assert xs == [xs[0]] + xs[1..] && ys == [ys[0]] + ys[1..];
    }
  }

  lemma {:induction false} JoinHead<T>(xs: seq<T>, u: string, e: T -> string, sep: string, end: char)
    requires forall x :: x in xs ==> e(x) != []
    ensures (Join(xs, e, sep) + [end] + u)[0] == if xs == [] then end else e(xs[0])[0]
  {
  }

  lemma DropCommon(a: string, x: string, y: string)
    requires a + x == a + y
    ensures x == y
  {
    assert x == (a + x)[|a|..] && y == (a + y)[|a|..];
  }

  /** What follows the first element: the separator or the closing character, and the rest. */
  lemma Next<T>(xs: seq<T>, u: string, e: T -> string, sep: string, end: char) returns (c: char, rest: string)
    requires xs != [] && sep != []
    ensures Join(xs, e, sep) + [end] + u == e(xs[0]) + [c] + rest
    ensures if |xs| == 1 then c == end && rest == u
      else c == sep[0] && rest == sep[1..] + (Join(xs[1..], e, sep) + [end] + u)
  {
    if |xs| == 1 {
      c, rest := end, u;
    } else {
      c, rest := sep[0], sep[1..] + (Join(xs[1..], e, sep) + [end] + u);
      assert sep == [sep[0]] + sep[1..];
    }
  }

  function DebugList<T>(xs: seq<T>, e: T -> string): string {
    "[" + Join(xs, e, ", ") + "]"
  }

  lemma DebugListReadsBack<T(!new)>(xs: seq<T>, u: string, ys: seq<T>, v: string, e: T -> string)
    requires Delimited(e, {',', ']'}) && DebugList(xs, e) + u == DebugList(ys, e) + v
    ensures xs == ys && u == v
  {
    var s := DebugList(xs, e) + u;
    assert s[1..] == Join(xs, e, ", ") + [']'] + u && s[1..] == Join(ys, e, ", ") + [']'] + v;
    JoinReadsBack(xs, u, ys, v, e, ", ", ']');
  }

  // ---- Options and booleans ----

  function DebugOption<T>(o: Option<T>, e: T -> string): string {
    match o case None => "None" case Some(x) => "Some(" + e(x) + ")"
  }

  lemma SomeTail(x: string, u: string)
    ensures ("Some(" + x + ")" + u)[5..] == x + [')'] + u
  {
  }

  lemma DebugOptionReadsBack<T(!new)>(o: Option<T>, u: string, p: Option<T>, v: string, e: T -> string)
    requires Delimited(e, {')'}) && DebugOption(o, e) + u == DebugOption(p, e) + v
    ensures o == p && u == v
  {
    var s := DebugOption(o, e) + u;
    assert s[0] == DebugOption(o, e)[0] && s[0] == DebugOption(p, e)[0];
    if o.None? {
      assert u == s[4..] && v == s[4..];
    } else {
      SomeTail(e(o.value), u);
      SomeTail(e(p.value), v);
      assert ReadsBack(e, {')'}, o.value, ')', u, p.value, ')', v);
    }
  }

  function DisplayBool(b: bool): string { if b then "true" else "false" }

  lemma DisplayBoolReadsBack(b: bool, u: string, d: bool, v: string)
    requires DisplayBool(b) + u == DisplayBool(d) + v
    ensures b == d && u == v
  {
    var s := DisplayBool(b) + u;
    assert s[0] == DisplayBool(b)[0] && s[0] == DisplayBool(d)[0];
    assert u == s[|DisplayBool(b)|..] && v == s[|DisplayBool(d)|..];
  }
}
