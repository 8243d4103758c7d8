/** The textual fingerprint used for set-level comparison of routes. */
module Fingerprint {
  import opened Prelude
  import opened Sorting
  import opened Routes
  import opened Text

  function AsnText(n: U32): string { Decimal(n) }

  lemma AsnTextDelimited(stops: set<char>)
    requires forall c :: c in stops ==> !IsDigit(c)
    ensures Delimited(AsnText, stops)
  {
    DecimalDelimited(stops);
    forall x: U32, c, u, y: U32, d, v ensures ReadsBack(AsnText, stops, x, c, u, y, d, v) {
      assert ReadsBack<nat>(Decimal, stops, x, c, u, y, d, v);
    }
    assert forall x: U32 :: IsDigit(AsnText(x)[0]);
  }

  // The format string, one field and the bar after it at a time, from the last field back.

  function FromCommunities(a: RouteAttributes): string {
    DebugList(SortBy(a.communities, StringAtMost), Quoted)
  }

  function FromAggregate(a: RouteAttributes): string { DisplayBool(a.atomicAggregate) + ("|" + FromCommunities(a)) }

  function FromLocalPref(a: RouteAttributes): string { DebugOption(a.localPref, AsnText) + ("|" + FromAggregate(a)) }

  function FromMed(a: RouteAttributes): string { DebugOption(a.med, AsnText) + ("|" + FromLocalPref(a)) }

  function FromNextHop(a: RouteAttributes): string { DebugOption(a.nextHop, Quoted) + ("|" + FromMed(a)) }

  function FromOrigin(a: RouteAttributes): string { DebugOption(a.origin, Quoted) + ("|" + FromNextHop(a)) }

  function FromOriginAsns(a: RouteAttributes): string { DebugList(a.originAsns, AsnText) + ("|" + FromOrigin(a)) }

  function SemanticFingerprint(a: RouteAttributes): string {
    Join(a.asPath, AsnText, ",") + ['|'] + FromOriginAsns(a)
  }

  /** Equal fingerprints are exactly semantically equivalent routes, whatever characters the fields contain. */
  lemma FingerprintIsSemantics(a: RouteAttributes, b: RouteAttributes)
    ensures SemanticFingerprint(a) == SemanticFingerprint(b) <==> RouteSemanticallyEquivalent(a, b)
  {
    if SemanticFingerprint(a) == SemanticFingerprint(b) {
      AsnTextDelimited({',', '|'});
      JoinReadsBack(a.asPath, FromOriginAsns(a), b.asPath, FromOriginAsns(b), AsnText, ",", '|');
      AsnTextDelimited({',', ']'});
      DebugListReadsBack(a.originAsns, "|" + FromOrigin(a), b.originAsns, "|" + FromOrigin(b), AsnText);
      DropCommon("|", FromOrigin(a), FromOrigin(b));
      TailReadsBack(a, b);
    }
  }

  lemma TailReadsBack(a: RouteAttributes, b: RouteAttributes)
    requires FromOrigin(a) == FromOrigin(b)
    ensures a.origin == b.origin && a.nextHop == b.nextHop && a.med == b.med && a.localPref == b.localPref
    ensures a.atomicAggregate == b.atomicAggregate
    ensures SortBy(a.communities, StringAtMost) == SortBy(b.communities, StringAtMost)
  {
    QuotedDelimited({')'});
    DebugOptionReadsBack(a.origin, "|" + FromNextHop(a), b.origin, "|" + FromNextHop(b), Quoted);
    DropCommon("|", FromNextHop(a), FromNextHop(b));
    DebugOptionReadsBack(a.nextHop, "|" + FromMed(a), b.nextHop, "|" + FromMed(b), Quoted);
    DropCommon("|", FromMed(a), FromMed(b));
    AsnTextDelimited({')'});
    DebugOptionReadsBack(a.med, "|" + FromLocalPref(a), b.med, "|" + FromLocalPref(b), AsnText);
    DropCommon("|", FromLocalPref(a), FromLocalPref(b));
    DebugOptionReadsBack(a.localPref, "|" + FromAggregate(a), b.localPref, "|" + FromAggregate(b), AsnText);
    DropCommon("|", FromAggregate(a), FromAggregate(b));
    DisplayBoolReadsBack(a.atomicAggregate, "|" + FromCommunities(a), b.atomicAggregate, "|" + FromCommunities(b));
    DropCommon("|", FromCommunities(a), FromCommunities(b));
    QuotedDelimited({',', ']'});
    var ca, cb := SortBy(a.communities, StringAtMost), SortBy(b.communities, StringAtMost);
    assert DebugList(ca, Quoted) + "" == DebugList(ca, Quoted) && DebugList(cb, Quoted) + "" == DebugList(cb, Quoted);
    DebugListReadsBack(ca, "", cb, "", Quoted);
  }
}
