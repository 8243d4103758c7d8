/** UPDATE admission: which parsed observations an archive contributes, and what is counted on the way. */
module Admission {
  import opened Prelude
  import opened Seqs
  import opened Observations

  datatype TargetStream = TargetStream(peerIp: string, prefix: string)

  type TargetSet = map<string, seq<TargetStream>>

  datatype Counters = Counters(parsed: nat, prefixMatches: nat, collectorMatches: nat, fullMatches: nat,
    announcements: nat, withdrawals: nat)

  type Parsed = Result<RouteObservation, string>

  predicate HasPrefix(entries: seq<TargetStream>, prefix: string) {
    exists i :: 0 <= i < |entries| && entries[i].prefix == prefix
  }

  predicate HasStream(entries: seq<TargetStream>, peerIp: string, prefix: string) {
    exists i :: 0 <= i < |entries| && entries[i].peerIp == peerIp && entries[i].prefix == prefix
  }

  predicate Contains(targets: TargetSet, o: RouteObservation) {
    o.collector in targets && HasStream(targets[o.collector], o.peerIp, o.prefix)
  }

  /** The prefixes of all target streams, whatever their collector. */
  ghost predicate AreFrozenPrefixes(prefixes: set<string>, targets: TargetSet) {
    forall p :: p in prefixes <==> exists c :: c in targets && HasPrefix(targets[c], p)
  }

  function Parses(results: seq<Parsed>): seq<RouteObservation> {
    if results == [] then []
    else Parses(results[..|results| - 1]) + match results[|results| - 1] case Ok(o) => [o] case Err(_) => []
  }

  function Targeted(targets: TargetSet): RouteObservation -> bool {
    (o: RouteObservation) => Contains(targets, o)
  }

  function OfKind(kind: ObservationKind): RouteObservation -> bool {
    (o: RouteObservation) => o.kind == kind
  }

  function PrefixIn(prefixes: set<string>): RouteObservation -> bool {
    (o: RouteObservation) => o.prefix in prefixes
  }

  predicate CollectorHas(targets: TargetSet, o: RouteObservation) {
    o.collector in targets && HasPrefix(targets[o.collector], o.prefix)
  }

  function OfCollector(targets: TargetSet): RouteObservation -> bool {
    (o: RouteObservation) => CollectorHas(targets, o)
  }

  /** The cheap checks that come first never reject an observation of a target stream. */
  lemma CheapChecksAreSafe(o: RouteObservation, targets: TargetSet, prefixes: set<string>)
    requires AreFrozenPrefixes(prefixes, targets)
    ensures Contains(targets, o) ==> CollectorHas(targets, o)
    ensures CollectorHas(targets, o) ==> o.prefix in prefixes
  {
    if Contains(targets, o) {
      var entries := targets[o.collector];
      var i :| 0 <= i < |entries| && entries[i].peerIp == o.peerIp && entries[i].prefix == o.prefix;
      assert HasPrefix(entries, o.prefix);
    }
  }

  lemma {:induction false} ParsesMeaning(results: seq<Parsed>, o: RouteObservation)
    ensures o in Parses(results) <==> Ok(o) in results
  {
    if results != [] {
      var init, last := results[..|results| - 1], results[|results| - 1];
      ParsesMeaning(init, o);
      assert results == init + [last];
    }
  }

  lemma ContainsMeaning(targets: TargetSet, o: RouteObservation)
    ensures Contains(targets, o) <==>
      o.collector in targets && TargetStream(o.peerIp, o.prefix) in targets[o.collector]
  {
    if o.collector in targets && TargetStream(o.peerIp, o.prefix) in targets[o.collector] {
      var entries := targets[o.collector];
      var i :| 0 <= i < |entries| && entries[i] == TargetStream(o.peerIp, o.prefix);
      assert entries[i].peerIp == o.peerIp;
    }
  }

  /** Admitted is what parsed and belongs to a target stream: its own collector, peer and prefix. */
  lemma {:induction false} AdmittedExactly(results: seq<Parsed>, targets: TargetSet, o: RouteObservation)
    ensures o in Filter(Parses(results), Targeted(targets)) <==>
      Ok(o) in results && o.collector in targets && TargetStream(o.peerIp, o.prefix) in targets[o.collector]
  {
    FilterMember(Parses(results), Targeted(targets), o);
    ParsesMeaning(results, o);
    ContainsMeaning(targets, o);
  }

  /** With one target stream, an observation of its prefix from another peer or collector is not admitted. */
  lemma {:induction false} OthersAreNotAdmitted(
      results: seq<Parsed>, collector: string, target: TargetStream, o: RouteObservation)
    requires o.collector != collector || o.peerIp != target.peerIp
    ensures o !in Filter(Parses(results), Targeted(map[collector := [target]]))
  {
    AdmittedExactly(results, map[collector := [target]], o);
  }

  /** What the cheap checks and the counters ask of an observation. */
  lemma ChecksMeaning(o: RouteObservation, targets: TargetSet, prefixes: set<string>)
    requires AreFrozenPrefixes(prefixes, targets)
    ensures PrefixIn(prefixes)(o) <==> exists c, e :: c in targets && e in targets[c] && e.prefix == o.prefix
    ensures OfCollector(targets)(o) <==>
      o.collector in targets && exists e :: e in targets[o.collector] && e.prefix == o.prefix
    ensures OfKind(AnnouncementSeen)(o) <==> o.kind.AnnouncementSeen?
    ensures OfKind(WithdrawalSeen)(o) <==> o.kind.WithdrawalSeen?
  {
    forall c | c in targets
      ensures HasPrefix(targets[c], o.prefix) <==> exists e :: e in targets[c] && e.prefix == o.prefix
    {
      PrefixListed(targets[c], o.prefix);
    }
    if c, e :| c in targets && e in targets[c] && e.prefix == o.prefix {
      assert HasPrefix(targets[c], o.prefix);
    }
  }

  lemma PrefixListed(entries: seq<TargetStream>, prefix: string)
    ensures HasPrefix(entries, prefix) <==> exists e :: e in entries && e.prefix == prefix
  {
    if e :| e in entries && e.prefix == prefix {
      var i :| 0 <= i < |entries| && entries[i] == e;
      assert entries[i].prefix == prefix;
    }
  }

  /** Parse errors are skipped; of the rest exactly the observations of target streams are admitted, in order. */
  method AdmitUpdates(results: seq<Parsed>, targets: TargetSet, prefixes: set<string>)
    returns (admitted: seq<RouteObservation>, c: Counters)
    requires AreFrozenPrefixes(prefixes, targets)
    ensures admitted == Filter(Parses(results), Targeted(targets))
    ensures forall o :: o in admitted <==>
      Ok(o) in results && o.collector in targets && TargetStream(o.peerIp, o.prefix) in targets[o.collector]
    ensures c.parsed == |Parses(results)| && c.prefixMatches == |Filter(Parses(results), PrefixIn(prefixes))|
    ensures c.collectorMatches == |Filter(Parses(results), OfCollector(targets))| && c.fullMatches == |admitted|
    ensures c.announcements == |Filter(admitted, OfKind(AnnouncementSeen))|
      && c.withdrawals == |Filter(admitted, OfKind(WithdrawalSeen))|
  {
    admitted, c := [], Counters(0, 0, 0, 0, 0, 0);
    for i := 0 to |results|
      invariant admitted == Filter(Parses(results[..i]), Targeted(targets))
      invariant c.parsed == |Parses(results[..i])|
        && c.prefixMatches == |Filter(Parses(results[..i]), PrefixIn(prefixes))|
      invariant c.collectorMatches == |Filter(Parses(results[..i]), OfCollector(targets))|
        && c.fullMatches == |admitted|
      invariant c.announcements == |Filter(admitted, OfKind(AnnouncementSeen))|
        && c.withdrawals == |Filter(admitted, OfKind(WithdrawalSeen))|
    {
      assert results[..i + 1][..i] == results[..i];
      ghost var before, after := Parses(results[..i]), Parses(results[..i + 1]);
      if results[i].Err? {
        assert after == before;
        continue;
      }
      var o := results[i].value;
      assert after == before + [o];
      FilterSnoc(before, o, Targeted(targets));
      FilterSnoc(before, o, PrefixIn(prefixes));
      FilterSnoc(before, o, OfCollector(targets));
      CheapChecksAreSafe(o, targets, prefixes);
      c := c.(parsed := c.parsed + 1);
      if o.prefix !in prefixes { continue; }
      c := c.(prefixMatches := c.prefixMatches + 1);
      if !CollectorHas(targets, o) { continue; }
      c := c.(collectorMatches := c.collectorMatches + 1);
      if !Contains(targets, o) { continue; }
      c := c.(fullMatches := c.fullMatches + 1);
      FilterSnoc(admitted, o, OfKind(AnnouncementSeen));
      FilterSnoc(admitted, o, OfKind(WithdrawalSeen));
      match o.kind {
        case AnnouncementSeen => c := c.(announcements := c.announcements + 1);
        case WithdrawalSeen => c := c.(withdrawals := c.withdrawals + 1);
        case _ =>
      }
      admitted := admitted + [o];
    }
    assert results[..|results|] == results;
    forall o { AdmittedExactly(results, targets, o); }
  }
}
