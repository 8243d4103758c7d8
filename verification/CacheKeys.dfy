/**
 * The byte strings that are hashed into cache keys. A character stands for the
 * byte of the same code, so a text is its own encoding; the hash is a parameter.
 */
module CacheKeys {
  import opened Seqs
  import opened Sorting
  import opened Orders
  import opened Text
  import opened Routes
  import opened Lifecycle
  import opened Streams

  const RIB_CACHE_SCHEMA_VERSION: U32 := 2
  const UPDATE_CACHE_SCHEMA_VERSION: U32 := 2
  const OBSERVATION_SCHEMA_VERSION: U32 := 2
  const PARSER_VERSION := "0.19.0"

  // ---- Encodings ----

  function Le32(n: U32): (bytes: string)
    ensures |bytes| == 4
  {
    [(n % 256) as char, (n / 256 % 256) as char, (n / 65536 % 256) as char, (n / 16777216) as char]
  }

  function AsnBytes(asns: seq<U32>): string {
    if asns == [] then "" else AsnBytes(asns[..|asns| - 1]) + Le32(asns[|asns| - 1])
  }

  function AsnDecimal(asn: U32): string { Decimal(asn) }

  function Identity(tp: TransitPredicate): string {
    match tp
    case ContainsAny(asns) => "ContainsAny[" + Join(asns, AsnDecimal, ",") + "]"
    case ContainsAll(asns) => "ContainsAll[" + Join(asns, AsnDecimal, ",") + "]"
    case Adjacent(a, b) => "Adjacent(" + Decimal(a) + "," + Decimal(b) + ")"
  }

  // ---- The hasher ----

  /** What has been fed to the hash so far. */
  class Hasher {
    var fed: string

    constructor ()
      ensures fed == ""
    {
      fed := "";
    }

    method Update(bytes: string)
      modifies this
      ensures fed == old(fed) + bytes
    {
      fed := fed + bytes;
    }
  }

  datatype RibInputs = RibInputs(sha: string, family: string, collector: string, asns: seq<U32>, tp: TransitPredicate,
    revision: U32, schema: U32, parser: string)

  datatype UpdateInputs = UpdateInputs(sha: string, family: string, collector: string, targets: string,
    schema: U32, observationSchema: U32, parser: string)

  /** A field with the bar before it. */
  function Field(s: string): (bytes: string)
    ensures |bytes| == |s| + 1
  {
    "|" + s
  }

  /** The three names every key starts with, each closed by a bar. */
  function Names(sha: string, family: string, collector: string): string {
    sha + "|" + family + "|" + collector + "|"
  }

  function RibVersions(k: RibInputs): string { Field(Le32(k.schema)) + Field(k.parser) }

  function RibEnd(k: RibInputs): string { Field(Identity(k.tp)) + Field(Le32(k.revision)) + RibVersions(k) }

  function RibRest(k: RibInputs): string { AsnBytes(k.asns) + RibEnd(k) }

  function RibPreimage(k: RibInputs): string {
    Names(k.sha, k.family, k.collector) + RibRest(k)
  }

  function UpdateVersions(k: UpdateInputs): string {
    Le32(k.schema) + "|" + Le32(k.observationSchema) + Field(k.parser)
  }

  function UpdateRest(k: UpdateInputs): string { k.targets + "|" + UpdateVersions(k) }

  function UpdatePreimage(k: UpdateInputs): string { Names(k.sha, k.family, k.collector) + UpdateRest(k) }

  method FeedNames(hasher: Hasher, sha: string, family: string, collector: string)
    requires hasher.fed == ""
    modifies hasher
    ensures hasher.fed == Names(sha, family, collector)
  {
    hasher.Update(sha);
    assert hasher.fed == sha;
    hasher.Update("|");
    hasher.Update(family);
    hasher.Update("|");
    hasher.Update(collector);
    hasher.Update("|");
  }

  method FeedAsns(hasher: Hasher, asns: seq<U32>)
    modifies hasher
    ensures hasher.fed == old(hasher.fed) + AsnBytes(asns)
  {
    for i := 0 to |asns|
      invariant hasher.fed == old(hasher.fed) + AsnBytes(asns[..i])
    {
      hasher.Update(Le32(asns[i]));
      assert asns[..i + 1][..i] == asns[..i];
    }
    assert asns[..|asns|] == asns;
  }

  method FeedField(hasher: Hasher, field: string)
    modifies hasher
    ensures hasher.fed == old(hasher.fed) + Field(field)
  {
    hasher.Update("|");
    hasher.Update(field);
  }

  method FeedRibEnd(hasher: Hasher, k: RibInputs)
    modifies hasher
    ensures hasher.fed == old(hasher.fed) + RibEnd(k)
  {
    FeedField(hasher, Identity(k.tp));
    FeedField(hasher, Le32(k.revision));
    FeedField(hasher, Le32(k.schema));
    FeedField(hasher, k.parser);
    FourAssociate(old(hasher.fed), Field(Identity(k.tp)), Field(Le32(k.revision)), Field(Le32(k.schema)),
      Field(k.parser));
  }

  lemma FourAssociate(s: string, a: string, b: string, c: string, d: string)
    ensures s + a + b + c + d == s + (a + b + (c + d))
  {
  }

  method RibCacheKey(
      sha: string, collector: string, asns: seq<U32>, tp: TransitPredicate, revision: U32, family: string,
      digest: string -> string) returns (key: string)
    ensures key == digest(RibPreimage(RibInputs(sha, family, collector, asns, tp, revision, 2, "0.19.0")))
  {
    var k := RibInputs(sha, family, collector, asns, tp, revision, RIB_CACHE_SCHEMA_VERSION, PARSER_VERSION);
    var hasher := new Hasher();
    FeedNames(hasher, sha, family, collector);
    FeedAsns(hasher, asns);
    FeedRibEnd(hasher, k);
    ConcatAssociates(Names(sha, family, collector), AsnBytes(asns), RibEnd(k));
    assert hasher.fed == RibPreimage(k);
    key := digest(hasher.fed);
  }

  method FeedUpdateVersions(hasher: Hasher, k: UpdateInputs)
    modifies hasher
    ensures hasher.fed == old(hasher.fed) + UpdateVersions(k)
  {
    hasher.Update(Le32(k.schema));
    hasher.Update("|");
    assert hasher.fed == old(hasher.fed) + (Le32(k.schema) + "|");
    hasher.Update(Le32(k.observationSchema));
    assert hasher.fed == old(hasher.fed) + (Le32(k.schema) + "|" + Le32(k.observationSchema));
    FeedField(hasher, k.parser);
  }

  method UpdateCacheKey(
      sha: string, collector: string, targets: string, family: string, digest: string -> string)
    returns (key: string)
    ensures key == digest(UpdatePreimage(UpdateInputs(sha, family, collector, targets, 2, 2, "0.19.0")))
  {
    var k := UpdateInputs(
      sha, family, collector, targets, UPDATE_CACHE_SCHEMA_VERSION, OBSERVATION_SCHEMA_VERSION, PARSER_VERSION);
    var hasher := new Hasher();
    FeedNames(hasher, sha, family, collector);
    ghost var names := hasher.fed;
    hasher.Update(targets);
    hasher.Update("|");
    assert hasher.fed == names + (targets + "|");
    FeedUpdateVersions(hasher, k);
    ConcatAssociates(names, targets + "|", UpdateVersions(k));
    assert hasher.fed == UpdatePreimage(k);
    key := digest(hasher.fed);
  }

  // ---- Reading the encodings back ----

  lemma Le32Injective(m: U32, n: U32)
    requires Le32(m) == Le32(n)
    ensures m == n
  {
    var a, b := Le32(m), Le32(n);
    assert a[0] == b[0] && a[1] == b[1] && a[2] == b[2] && a[3] == b[3];
    assert (n / 65536) / 256 == n / 16777216 && (m / 65536) / 256 == m / 16777216;
    assert (n / 256) / 256 == n / 65536 && (m / 256) / 256 == m / 65536;
  }

  lemma {:induction false} AsnBytesInjective(xs: seq<U32>, ys: seq<U32>)
    requires AsnBytes(xs) == AsnBytes(ys)
    ensures xs == ys
  {
    if xs != [] && ys != [] {
      var x, y := xs[|xs| - 1], ys[|ys| - 1];
      SameTail(AsnBytes(xs[..|xs| - 1]), Le32(x), AsnBytes(ys[..|ys| - 1]), Le32(y));
      Le32Injective(x, y);
      AsnBytesInjective(xs[..|xs| - 1], ys[..|ys| - 1]);
      assert xs == xs[..|xs| - 1] + [x] && ys == ys[..|ys| - 1] + [y];
    }
  }

  lemma SameTail(a: string, x: string, b: string, y: string)
    requires a + x == b + y && |x| == |y|
    ensures a == b && x == y
  {
    assert a == (a + x)[..|a|] && b == (b + y)[..|b|];
    assert x == (a + x)[|a|..] && y == (b + y)[|b|..];
  }

  predicate NotBar(c: char) { c != '|' }

  predicate BarFree(s: string) { forall i :: 0 <= i < |s| ==> NotBar(s[i]) }

  lemma FirstField(a: string, x: string, b: string, y: string)
    requires BarFree(a) && BarFree(b) && a + "|" + x == b + "|" + y
    ensures a == b && x == y
  {
    TokenEnds(a, '|', x, b, '|', y, NotBar);
  }

  lemma LastField(x: string, a: string, y: string, b: string)
    requires BarFree(a) && BarFree(b) && x + Field(a) == y + Field(b)
    ensures x == y && a == b
  {
    var s := x + Field(a);
    assert s[|x|] == '|' && s[|y|] == '|';
    assert forall i :: |x| < i < |s| ==> s[i] == a[i - |x| - 1];
    assert forall i :: |y| < i < |s| ==> s[i] == b[i - |y| - 1];
    assert |x| == |y|;
    SameTail(x, Field(a), y, Field(b));
    FieldInjective(a, b);
  }

  lemma FieldInjective(a: string, b: string)
    requires Field(a) == Field(b)
    ensures a == b
  {
    DropCommon("|", a, b);
  }

  lemma AsnsDelimited()
    ensures Delimited(AsnDecimal, {',', ']'})
  {
    DecimalDelimited({',', ']'});
    forall x: U32, c, u, y: U32, d, v ensures ReadsBack(AsnDecimal, {',', ']'}, x, c, u, y, d, v) {
      assert ReadsBack<nat>(Decimal, {',', ']'}, x, c, u, y, d, v);
    }
    forall x: U32 ensures AsnDecimal(x) != [] && AsnDecimal(x)[0] !in {',', ']'} {
      assert IsDigit(Decimal(x)[0]);
    }
  }

  lemma {:induction false} ListReadsBack(head: string, xs: seq<U32>, ys: seq<U32>)
    requires head + Join(xs, AsnDecimal, ",") + "]" == head + Join(ys, AsnDecimal, ",") + "]"
    ensures xs == ys
  {
    var xsText, ysText := Join(xs, AsnDecimal, ","), Join(ys, AsnDecimal, ",");
    assert head + xsText + "]" == head + (xsText + "]") && head + ysText + "]" == head + (ysText + "]");
    DropCommon(head, xsText + "]", ysText + "]");
    assert xsText + [']'] + [] == xsText + "]" && ysText + [']'] + [] == ysText + "]";
    AsnsDelimited();
    JoinReadsBack(xs, [], ys, [], AsnDecimal, ",", ']');
  }

  function PairText(a: U32, b: U32): string { Decimal(a) + [','] + (Decimal(b) + [')'] + []) }

  lemma PairReadsBack(a: U32, b: U32, c: U32, d: U32)
    requires PairText(a, b) == PairText(c, d)
    ensures a == c && b == d
  {
    TokenEnds(Decimal(a), ',', Decimal(b) + [')'] + [], Decimal(c), ',', Decimal(d) + [')'] + [], IsDigit);
    TokenEnds(Decimal(b), ')', [], Decimal(d), ')', [], IsDigit);
    DecimalInjective(a, c);
    DecimalInjective(b, d);
  }

  lemma AdjacentText(x: string, y: string)
    ensures "Adjacent(" + x + "," + y + ")" == "Adjacent(" + (x + [','] + (y + [')'] + []))
  {
  }

  lemma AdjacentReadsBack(a: U32, b: U32, c: U32, d: U32)
    requires Identity(Adjacent(a, b)) == Identity(Adjacent(c, d))
    ensures a == c && b == d
  {
    AdjacentText(Decimal(a), Decimal(b));
    AdjacentText(Decimal(c), Decimal(d));
    DropCommon("Adjacent(", PairText(a, b), PairText(c, d));
    PairReadsBack(a, b, c, d);
  }

  /** Variant, numbers and their order can all be read off the identity of a predicate. */
  lemma IdentityInjective(p: TransitPredicate, q: TransitPredicate)
    requires Identity(p) == Identity(q)
    ensures p == q
  {
    var s := Identity(p);
    assert s[0] == Identity(q)[0] && s[9] == Identity(q)[9];
    match p {
      case ContainsAny(xs) =>
        assert s[0] == 'C' && s[9] == 'n';
        ListReadsBack("ContainsAny[", xs, q.asns);
      case ContainsAll(xs) =>
        assert s[0] == 'C' && s[9] == 'l';
        ListReadsBack("ContainsAll[", xs, q.asns);
      case Adjacent(a, b) =>
        assert s[0] == 'A';
        AdjacentReadsBack(a, b, q.a, q.b);
    }
  }

  lemma {:induction false} JoinBarFree(xs: seq<U32>)
    ensures BarFree(Join(xs, AsnDecimal, ","))
  {
    if xs != [] {
      DecimalBarFree(xs[0]);
      JoinBarFree(xs[1..]);
      if |xs| > 1 { BarFreeConcat(Decimal(xs[0]), ",", Join(xs[1..], AsnDecimal, ",")); }
    }
  }

  lemma {:induction false} DecimalBarFree(n: nat)
    ensures BarFree(Decimal(n))
  {
    forall i | 0 <= i < |Decimal(n)| ensures NotBar(Decimal(n)[i]) {
      assert IsDigit(Decimal(n)[i]);
    }
  }

  lemma BarFreeConcat(a: string, b: string, c: string)
    ensures BarFree(a + b + c) <==> BarFree(a) && BarFree(b) && BarFree(c)
  {
    var s := a + b + c;
    assert forall i :: 0 <= i < |a| ==> s[i] == a[i];
    assert forall i :: 0 <= i < |b| ==> s[|a| + i] == b[i];
    assert forall i :: 0 <= i < |c| ==> s[|a| + |b| + i] == c[i];
  }

  lemma {:induction false} AdjacentBarFree(a: U32, b: U32)
    ensures BarFree("Adjacent(" + Decimal(a) + "," + Decimal(b) + ")")
  {
    DecimalBarFree(a);
    DecimalBarFree(b);
    BarFreeConcat("Adjacent(", Decimal(a), ",");
    BarFreeConcat("Adjacent(" + Decimal(a) + ",", Decimal(b), ")");
  }

  lemma IdentityBarFree(tp: TransitPredicate)
    ensures BarFree(Identity(tp))
  {
    match tp {
      case ContainsAny(asns) =>
        JoinBarFree(asns);
        BarFreeConcat("ContainsAny[", Join(asns, AsnDecimal, ","), "]");
      case ContainsAll(asns) =>
        JoinBarFree(asns);
        BarFreeConcat("ContainsAll[", Join(asns, AsnDecimal, ","), "]");
      case Adjacent(a, b) => AdjacentBarFree(a, b);
    }
  }

  // ---- Cache keys ----

  predicate NamesBarFree(sha: string, family: string, collector: string) {
    BarFree(sha) && BarFree(family) && BarFree(collector)
  }

  /** Three names, then anything. */
  lemma NamesReadBack(
      sha: string, family: string, collector: string, x: string, sha': string, family': string, collector': string,
      y: string)
    requires NamesBarFree(sha, family, collector) && NamesBarFree(sha', family', collector')
    requires Names(sha, family, collector) + x == Names(sha', family', collector') + y
    ensures sha == sha' && family == family' && collector == collector' && x == y
  {
    var afterSha, afterSha' := family + "|" + (collector + "|" + x), family' + "|" + (collector' + "|" + y);
    assert Names(sha, family, collector) + x == sha + "|" + afterSha;
    assert Names(sha', family', collector') + y == sha' + "|" + afterSha';
    FirstField(sha, afterSha, sha', afterSha');
    FirstField(family, collector + "|" + x, family', collector' + "|" + y);
    FirstField(collector, x, collector', y);
  }

  function RibHead(k: RibInputs): string { AsnBytes(k.asns) + Field(Identity(k.tp)) }

  lemma RibRestFromHead(k: RibInputs)
    ensures RibRest(k) == RibHead(k) + Field(Le32(k.revision)) + Field(Le32(k.schema)) + Field(k.parser)
  {
    FourAssociate(AsnBytes(k.asns), Field(Identity(k.tp)), Field(Le32(k.revision)), Field(Le32(k.schema)),
      Field(k.parser));
  }

  lemma RibRestReadsBack(k: RibInputs, l: RibInputs)
    requires RibRest(k) == RibRest(l) && BarFree(k.parser) && BarFree(l.parser)
    ensures RibHead(k) == RibHead(l) && k.revision == l.revision && k.schema == l.schema && k.parser == l.parser
  {
    RibRestFromHead(k);
    RibRestFromHead(l);
    var x, y := RibHead(k) + Field(Le32(k.revision)), RibHead(l) + Field(Le32(l.revision));
    LastField(x + Field(Le32(k.schema)), k.parser, y + Field(Le32(l.schema)), l.parser);
    LastNumber(x, k.schema, y, l.schema);
    LastNumber(RibHead(k), k.revision, RibHead(l), l.revision);
  }

  lemma LastNumber(x: string, m: U32, y: string, n: U32)
    requires x + Field(Le32(m)) == y + Field(Le32(n))
    ensures x == y && m == n
  {
    SameTail(x, Field(Le32(m)), y, Field(Le32(n)));
    FieldInjective(Le32(m), Le32(n));
    Le32Injective(m, n);
  }

  lemma RibHeadReadsBack(k: RibInputs, l: RibInputs)
    requires RibHead(k) == RibHead(l)
    ensures k.asns == l.asns && k.tp == l.tp
  {
    IdentityBarFree(k.tp);
    IdentityBarFree(l.tp);
    LastField(AsnBytes(k.asns), Identity(k.tp), AsnBytes(l.asns), Identity(l.tp));
    IdentityInjective(k.tp, l.tp);
    AsnBytesInjective(k.asns, l.asns);
  }

  predicate RibBarFree(k: RibInputs) { NamesBarFree(k.sha, k.family, k.collector) && BarFree(k.parser) }

  predicate UpdateBarFree(k: UpdateInputs) { NamesBarFree(k.sha, k.family, k.collector) && BarFree(k.parser) }

  /**
   * Without a bar in the three names and the parser version the hashed bytes determine every
   * input, versions included, even when the bytes of some number contain a bar.
   */
  lemma RibPreimageInjective(k: RibInputs, l: RibInputs)
    requires RibBarFree(k) && RibBarFree(l)
    ensures RibPreimage(k) == RibPreimage(l) <==> k == l
  {
    if RibPreimage(k) == RibPreimage(l) {
      NamesReadBack(k.sha, k.family, k.collector, RibRest(k), l.sha, l.family, l.collector, RibRest(l));
      RibRestReadsBack(k, l);
      RibHeadReadsBack(k, l);
    }
  }

  lemma UpdateRestReadsBack(k: UpdateInputs, l: UpdateInputs)
    requires UpdateRest(k) == UpdateRest(l) && BarFree(k.parser) && BarFree(l.parser)
    ensures k.targets == l.targets && k.schema == l.schema
    ensures k.observationSchema == l.observationSchema && k.parser == l.parser
  {
    UpdateRestAsFields(k);
    UpdateRestAsFields(l);
    var x, y := k.targets + Field(Le32(k.schema)), l.targets + Field(Le32(l.schema));
    LastField(x + Field(Le32(k.observationSchema)), k.parser, y + Field(Le32(l.observationSchema)), l.parser);
    LastNumber(x, k.observationSchema, y, l.observationSchema);
    LastNumber(k.targets, k.schema, l.targets, l.schema);
  }

  lemma UpdateRestAsFields(k: UpdateInputs)
    ensures UpdateRest(k)
      == k.targets + Field(Le32(k.schema)) + Field(Le32(k.observationSchema)) + Field(k.parser)
  {
  }

  lemma UpdatePreimageInjective(k: UpdateInputs, l: UpdateInputs)
    requires UpdateBarFree(k) && UpdateBarFree(l)
    ensures UpdatePreimage(k) == UpdatePreimage(l) <==> k == l
  {
    if UpdatePreimage(k) == UpdatePreimage(l) {
      NamesReadBack(k.sha, k.family, k.collector, UpdateRest(k), l.sha, l.family, l.collector, UpdateRest(l));
      UpdateRestReadsBack(k, l);
    }
  }

  lemma DecimalText()
    ensures Decimal(11537) == "11537" && Decimal(1) == "1"
  {
    assert Decimal(11) == Decimal(1) + "1" && Decimal(115) == Decimal(11) + "5";
    assert Decimal(1153) == Decimal(115) + "3" && Decimal(11537) == Decimal(1153) + "7";
  }

  /** Numbers are four bytes each, the least significant first. */
  lemma NumbersByteByByte()
    ensures Le32(11537) == [17 as char, 45 as char, 0 as char, 0 as char]
    ensures AsnBytes([11537, 1]) == Le32(11537) + Le32(1)
  {
    var one: seq<U32>, two: seq<U32> := [11537], [11537, 1];
    assert two[..1] == one && one[..0] == [];
    assert AsnBytes(one) == Le32(11537) && AsnBytes(two) == AsnBytes(one) + Le32(1);
  }

  lemma PredicatesInFull()
    ensures Identity(Adjacent(11537, 1)) == "Adjacent(" + "11537" + "," + "1" + ")"
    ensures Identity(ContainsAny([11537, 1])) == "ContainsAny[" + "11537,1" + "]"
    ensures Identity(ContainsAll([1])) == "ContainsAll[" + "1" + "]"
  {
    DecimalText();
    var two: seq<U32>, one: seq<U32> := [11537, 1], [1];
    assert two[1..] == one && one[1..] == [];
    assert Join(one, AsnDecimal, ",") == "1";
    assert Join(two, AsnDecimal, ",") == "11537" + "," + "1" == "11537,1";
  }

  /** The fields of a RIB key in their order, a bar between any two. */
  lemma RibFields(k: RibInputs)
    ensures RibPreimage(k) == k.sha + ("|" + (k.family + ("|" + (k.collector + ("|" + (AsnBytes(k.asns)
      + ("|" + (Identity(k.tp) + ("|" + (Le32(k.revision) + ("|" + (Le32(k.schema) + ("|" + k.parser)))))))))))))
  {
    NamesThen(k.sha, k.family, k.collector, RibRest(k));
    assert RibVersions(k) == "|" + (Le32(k.schema) + ("|" + k.parser));
    assert RibEnd(k) == "|" + (Identity(k.tp) + ("|" + (Le32(k.revision) + RibVersions(k))));
  }

  lemma NamesThen(a: string, b: string, c: string, rest: string)
    ensures Names(a, b, c) + rest == a + ("|" + (b + ("|" + (c + ("|" + rest)))))
  {
  }

  /** And of an UPDATE key. */
  lemma UpdateFields(k: UpdateInputs)
    ensures UpdatePreimage(k) == k.sha + ("|" + (k.family + ("|" + (k.collector + ("|" + (k.targets
      + ("|" + (Le32(k.schema) + ("|" + (Le32(k.observationSchema) + ("|" + k.parser)))))))))))
  {
    NamesThen(k.sha, k.family, k.collector, UpdateRest(k));
    assert UpdateVersions(k) == Le32(k.schema) + ("|" + (Le32(k.observationSchema) + ("|" + k.parser)));
    assert UpdateRest(k) == k.targets + ("|" + UpdateVersions(k));
  }

  lemma SplitAtBar(s: string) returns (a: string, b: string)
    requires !BarFree(s)
    ensures s == a + "|" + b
  {
    var i :| 0 <= i < |s| && !NotBar(s[i]);
    a, b := s[..i], s[i + 1..];
  }

  /** A bar in any of three names costs uniqueness: other names give the same bytes. */
  lemma NamesCollide(a: string, b: string, c: string) returns (a': string, b': string, c': string)
    requires !NamesBarFree(a, b, c)
    ensures (a, b, c) != (a', b', c') && Names(a', b', c') == Names(a, b, c)
  {
    if !BarFree(a) {
      var x, y := SplitAtBar(a);
      a', b', c' := x, y, b + "|" + c;
      assert |a'| != |a|;
    } else if !BarFree(b) {
      var x, y := SplitAtBar(b);
      a', b', c' := a, x, y + "|" + c;
      assert |b'| != |b|;
    } else {
      var x, y := SplitAtBar(c);
      a', b', c' := a, b + "|" + x, y;
      assert |b'| != |b|;
    }
    assert Names(a', b', c') == Names(a, b, c);
  }

  lemma BarsCollide(k: RibInputs) returns (l: RibInputs)
    requires !NamesBarFree(k.sha, k.family, k.collector)
    ensures l != k && RibPreimage(l) == RibPreimage(k)
  {
    var sha, family, collector := NamesCollide(k.sha, k.family, k.collector);
    l := k.(sha := sha, family := family, collector := collector);
  }

  lemma UpdateBarsCollide(k: UpdateInputs) returns (l: UpdateInputs)
    requires !NamesBarFree(k.sha, k.family, k.collector)
    ensures l != k && UpdatePreimage(l) == UpdatePreimage(k)
  {
    var sha, family, collector := NamesCollide(k.sha, k.family, k.collector);
    l := k.(sha := sha, family := family, collector := collector);
  }

  // ---- Which names may occur ----

  predicate Over(alphabet: set<char>, s: string) { forall i :: 0 <= i < |s| ==> s[i] in alphabet }

  predicate NamesOver(alphabet: set<char>, a: string, b: string, c: string) {
    Over(alphabet, a) && Over(alphabet, b) && Over(alphabet, c)
  }

  lemma OverBarFree(alphabet: set<char>, s: string)
    requires Over(alphabet, s) && '|' !in alphabet
    ensures BarFree(s)
  {
  }

  lemma NamesOverBarFree(alphabet: set<char>, a: string, b: string, c: string)
    requires NamesOver(alphabet, a, b, c) && '|' !in alphabet
    ensures NamesBarFree(a, b, c)
  {
    OverBarFree(alphabet, a);
    OverBarFree(alphabet, b);
    OverBarFree(alphabet, c);
  }

  /** The bar may be in the first name, or in the second. */
  lemma OneBar(alphabet: set<char>)
    requires '|' in alphabet
    ensures NamesOver(alphabet, "|", "", "") && NamesOver(alphabet, "", "|", "")
    ensures Names("|", "", "") == Names("", "|", "")
  {
    assert Names("|", "", "") == "||||" == Names("", "|", "");
  }

  predicate RibOver(alphabet: set<char>, k: RibInputs) {
    NamesOver(alphabet, k.sha, k.family, k.collector) && Over(alphabet, k.parser)
  }

  ghost predicate RibKeysDiffer(alphabet: set<char>) {
    forall k, l :: RibOver(alphabet, k) && RibOver(alphabet, l)
      ==> (RibPreimage(k) == RibPreimage(l) <==> k == l)
  }

  /** Different inputs have different bytes exactly when the names are written without the bar. */
  lemma RibKeysDifferExactly(alphabet: set<char>)
    ensures RibKeysDiffer(alphabet) <==> '|' !in alphabet
  {
    if '|' in alphabet {
      OneBar(alphabet);
      var k := RibInputs("|", "", "", [], ContainsAny([]), 0, 0, "");
      var l := k.(sha := "", family := "|");
      assert RibPreimage(k) == RibPreimage(l);
    } else {
      forall k, l | RibOver(alphabet, k) && RibOver(alphabet, l)
        ensures RibPreimage(k) == RibPreimage(l) <==> k == l
      {
        NamesOverBarFree(alphabet, k.sha, k.family, k.collector);
        NamesOverBarFree(alphabet, l.sha, l.family, l.collector);
        OverBarFree(alphabet, k.parser);
        OverBarFree(alphabet, l.parser);
        RibPreimageInjective(k, l);
      }
    }
  }

  predicate UpdateOver(alphabet: set<char>, k: UpdateInputs) {
    NamesOver(alphabet, k.sha, k.family, k.collector) && Over(alphabet, k.parser)
  }

  ghost predicate UpdateKeysDiffer(alphabet: set<char>) {
    forall k, l :: UpdateOver(alphabet, k) && UpdateOver(alphabet, l)
      ==> (UpdatePreimage(k) == UpdatePreimage(l) <==> k == l)
  }

  lemma UpdateKeysDifferExactly(alphabet: set<char>)
    ensures UpdateKeysDiffer(alphabet) <==> '|' !in alphabet
  {
    if '|' in alphabet {
      OneBar(alphabet);
      var k := UpdateInputs("|", "", "", "", 0, 0, "");
      var l := k.(sha := "", family := "|");
      assert UpdatePreimage(k) == UpdatePreimage(l);
    } else {
      forall k, l | UpdateOver(alphabet, k) && UpdateOver(alphabet, l)
        ensures UpdatePreimage(k) == UpdatePreimage(l) <==> k == l
      {
        NamesOverBarFree(alphabet, k.sha, k.family, k.collector);
        NamesOverBarFree(alphabet, l.sha, l.family, l.collector);
        OverBarFree(alphabet, k.parser);
        OverBarFree(alphabet, l.parser);
        UpdatePreimageInjective(k, l);
      }
    }
  }

  // ---- Target sets and cohorts ----

  function StreamField(s: StreamKey): string { Names(s.collector, s.peerIp, s.prefix) }

  function EncodeStreams(entries: seq<StreamKey>): string {
    if entries == [] then "" else EncodeStreams(entries[..|entries| - 1]) + StreamField(entries[|entries| - 1])
  }

  /** Collector, peer and prefix, each closed by a bar. */
  lemma StreamInFull(s: StreamKey)
    ensures StreamField(s) == s.collector + ("|" + (s.peerIp + ("|" + (s.prefix + "|"))))
  {
  }

  ghost predicate Listing(entries: seq<StreamKey>, streams: set<StreamKey>) {
    Sorted(entries, Before) && forall s :: s in entries <==> s in streams
  }

  predicate StreamAtMost(a: StreamKey, b: StreamKey) { CompareStream(a, b) != Greater }

  method FeedStream(hasher: Hasher, s: StreamKey)
    modifies hasher
    ensures hasher.fed == old(hasher.fed) + StreamField(s)
  {
    ghost var before := hasher.fed;
    hasher.Update(s.collector);
    hasher.Update("|");
    assert hasher.fed == before + (s.collector + "|");
    hasher.Update(s.peerIp);
    hasher.Update("|");
    assert hasher.fed == before + (s.collector + "|" + s.peerIp + "|");
    hasher.Update(s.prefix);
    hasher.Update("|");
  }

  /** Collect the streams in whatever order the set is walked, sort them, feed them. */
  method StreamSetHash(streams: set<StreamKey>, digest: string -> string) returns (hash: string)
    ensures exists entries :: Listing(entries, streams) && hash == digest(EncodeStreams(entries))
  {
    var collected := CollectSet(streams);
    var sorted := SortBy(collected, StreamAtMost);
    SortedListing(collected, streams);
    var hasher := new Hasher();
    for i := 0 to |sorted|
      invariant hasher.fed == EncodeStreams(sorted[..i])
    {
      FeedStream(hasher, sorted[i]);
      EncodeSnoc(sorted, i);
    }
    assert sorted[..|sorted|] == sorted;
    hash := digest(hasher.fed);
  }

  lemma EncodeSnoc(entries: seq<StreamKey>, i: nat)
    requires i < |entries|
    ensures EncodeStreams(entries[..i + 1]) == EncodeStreams(entries[..i]) + StreamField(entries[i])
  {
    assert entries[..i + 1][..i] == entries[..i];
  }

  lemma {:induction false} SortedListing(collected: seq<StreamKey>, streams: set<StreamKey>)
    requires forall s :: s in collected <==> s in streams
    requires forall i, j :: 0 <= i < j < |collected| ==> collected[i] != collected[j]
    ensures Listing(SortBy(collected, StreamAtMost), streams)
  {
    var sorted := SortBy(collected, StreamAtMost);
    StreamOrderLawful();
    forall a, b ensures StreamAtMost(a, b) || StreamAtMost(b, a) {
      assert CompareStream(b, a) == CompareStream(a, b).Reversed();
    }
    SortSorts(collected, StreamAtMost);
    SortPermutes(collected, StreamAtMost);
    forall s ensures s in sorted <==> s in streams {
      assert s in sorted <==> s in multiset(sorted);
      assert s in collected <==> s in multiset(collected);
    }
    forall i, j | 0 <= i < j < |sorted| ensures Before(sorted[i], sorted[j]) {
      assert StreamAtMost(sorted[i], sorted[j]);
      if sorted[i] == sorted[j] {
        CountedTwice(sorted, i, j);
        var k := FindIndex(collected, sorted[i]);
        CountedOnce(collected, k);
      }
    }
  }

  predicate StreamBarFree(s: StreamKey) { NamesBarFree(s.collector, s.peerIp, s.prefix) }

  lemma FrontAndBack<T>(xs: seq<T>)
    requires |xs| > 1
    ensures xs[..|xs| - 1][1..] == xs[1..][..|xs| - 2]
    ensures xs[..|xs| - 1][0] == xs[0] && xs[1..][|xs| - 2] == xs[|xs| - 1]
  {
  }

  lemma {:induction false} EncodeFront(entries: seq<StreamKey>)
    requires entries != []
    ensures EncodeStreams(entries) == StreamField(entries[0]) + EncodeStreams(entries[1..])
  {
    var n := |entries| - 1;
    if n == 0 {
      assert entries[..0] == [] && entries[1..] == [];
    } else {
      var init := entries[..n];
      EncodeFront(init);
      FrontAndBack(entries);
      ConcatAssociates(StreamField(entries[0]), EncodeStreams(init[1..]), StreamField(entries[n]));
    }
  }

  lemma {:induction false} EncodeStreamsInjective(xs: seq<StreamKey>, ys: seq<StreamKey>)
    requires forall i :: 0 <= i < |xs| ==> StreamBarFree(xs[i])
    requires forall i :: 0 <= i < |ys| ==> StreamBarFree(ys[i])
    requires EncodeStreams(xs) == EncodeStreams(ys)
    ensures xs == ys
  {
    if xs != [] { EncodeFront(xs); }
    if ys != [] { EncodeFront(ys); }
    if xs != [] && ys != [] {
      var x, y, u, v := xs[0], ys[0], EncodeStreams(xs[1..]), EncodeStreams(ys[1..]);
      NamesReadBack(x.collector, x.peerIp, x.prefix, u, y.collector, y.peerIp, y.prefix, v);
      EncodeStreamsInjective(xs[1..], ys[1..]);
      assert xs == [xs[0]] + xs[1..] && ys == [ys[0]] + ys[1..];
    }
  }

  /** What is hashed for a set of streams determines the set, and the set determines it: no walk order shows. */
  lemma {:induction false} StreamSetEncodingExact(
      streams: set<StreamKey>, others: set<StreamKey>, xs: seq<StreamKey>, ys: seq<StreamKey>)
    requires Listing(xs, streams) && Listing(ys, others)
    requires forall s :: s in streams || s in others ==> StreamBarFree(s)
    ensures EncodeStreams(xs) == EncodeStreams(ys) <==> streams == others
  {
    if EncodeStreams(xs) == EncodeStreams(ys) {
      forall i | 0 <= i < |xs| ensures StreamBarFree(xs[i]) { assert xs[i] in streams; }
      forall i | 0 <= i < |ys| ensures StreamBarFree(ys[i]) { assert ys[i] in others; }
      EncodeStreamsInjective(xs, ys);
      assert forall s :: s in streams <==> s in others;
    }
    if streams == others {
      BeforeIsStrict();
      StrictlySortedUnique(xs, ys, Before);
    }
  }

  lemma ListingOfOne(s: StreamKey)
    ensures Listing([s], {s}) && EncodeStreams([s]) == StreamField(s)
  {
    assert [s][..0] == [];
  }

  /** A bar in any part of a stream: another stream alone has the same bytes. */
  lemma StreamBarsCollide(s: StreamKey) returns (other: StreamKey)
    requires !StreamBarFree(s)
    ensures {s} != {other} && Listing([s], {s}) && Listing([other], {other})
    ensures EncodeStreams([s]) == EncodeStreams([other])
  {
    var collector, peer, prefix := NamesCollide(s.collector, s.peerIp, s.prefix);
    other := StreamKey(collector, peer, prefix);
    ListingOfOne(s);
    ListingOfOne(other);
    assert s in {s} && other in {other};
  }

  ghost predicate StreamsOver(alphabet: set<char>, streams: set<StreamKey>) {
    forall s :: s in streams ==> NamesOver(alphabet, s.collector, s.peerIp, s.prefix)
  }

  ghost predicate SetHashesDiffer(alphabet: set<char>) {
    forall streams, others, xs, ys ::
      StreamsOver(alphabet, streams) && StreamsOver(alphabet, others) && Listing(xs, streams) && Listing(ys, others)
      ==> (EncodeStreams(xs) == EncodeStreams(ys) <==> streams == others)
  }

  /** Different sets of streams have different bytes exactly when their parts are written without the bar. */
  lemma SetHashesDifferExactly(alphabet: set<char>)
    ensures SetHashesDiffer(alphabet) <==> '|' !in alphabet
  {
    if '|' in alphabet {
      OneBar(alphabet);
      var s, t := StreamKey("|", "", ""), StreamKey("", "|", "");
      ListingOfOne(s);
      ListingOfOne(t);
      assert s in {s} && s !in {t};
      assert StreamsOver(alphabet, {s}) && StreamsOver(alphabet, {t});
      assert EncodeStreams([s]) == EncodeStreams([t]);
    } else {
      forall streams, others, xs, ys |
        StreamsOver(alphabet, streams) && StreamsOver(alphabet, others) && Listing(xs, streams) && Listing(ys, others)
        ensures EncodeStreams(xs) == EncodeStreams(ys) <==> streams == others
      {
        forall s | s in streams || s in others ensures StreamBarFree(s) {
          NamesOverBarFree(alphabet, s.collector, s.peerIp, s.prefix);
        }
        StreamSetEncodingExact(streams, others, xs, ys);
      }
    }
  }
}
