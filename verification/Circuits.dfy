/** `valid_circuits`: the exact set of legal (entry, exit) index pairs. */
module Circuits {
  import opened Wrappers
  import opened Machine
  import opened Text
  import opened Directory

  /** The caller's country hints and drained-node avoid set. */
  datatype CircuitQuery = CircuitQuery(entryCountry: string, exitCountry: string, exclude: seq<Id>)

  const ANY := CircuitQuery("", "", [])

  predicate CountryMatches(filter: string, country: string) {
    filter == "" || EqIgnoreCase(filter, country)
  }

  /** What makes (i, j) a legal circuit, in the words of the policy. */
  predicate Legal(dir: VerifiedDirectory, q: CircuitQuery, i: nat, j: nat) {
    i < |dir.nodes| && j < |dir.nodes| &&
    var e, x := dir.nodes[i], dir.nodes[j];
    && (q.entryCountry == "" || EqIgnoreCase(q.entryCountry, e.country))
    && (q.exitCountry == "" || EqIgnoreCase(q.exitCountry, x.country))
    && e.exit.exitId !in q.exclude
    && x.exit.exitId !in q.exclude
    && e.relay.relayId != x.relay.relayId
    && !EqIgnoreCase(e.country, x.country)
    && (PolicyFor(dir).asDiversityRequired ==> AsDiverse(e.asn, x.asn))
  }

  function Row(dir: VerifiedDirectory, q: CircuitQuery, i: nat, m: nat): seq<(nat, nat)> {
    if m == 0 then []
    else Row(dir, q, i, m - 1) + (if Legal(dir, q, i, m - 1) then [(i, m - 1)] else [])
  }

  function Rows(dir: VerifiedDirectory, q: CircuitQuery, n: nat): seq<(nat, nat)> {
    if n == 0 then [] else Rows(dir, q, n - 1) + Row(dir, q, n - 1, |dir.nodes|)
  }

  function ValidPairs(dir: VerifiedDirectory, q: CircuitQuery): seq<(nat, nat)> {
    Rows(dir, q, |dir.nodes|)
  }

  method ValidCircuits(dir: VerifiedDirectory, entryCountry: string, exitCountry: string, exclude: seq<Id>)
    returns (pairs: seq<(nat, nat)>)
    ensures pairs == ValidPairs(dir, CircuitQuery(entryCountry, exitCountry, exclude))
  {
    var q := CircuitQuery(entryCountry, exitCountry, exclude);
    var policy := FromAsns(Asns(dir.nodes));
    pairs := [];
    for i := 0 to |dir.nodes|
      invariant pairs == Rows(dir, q, i)
    {
      var e := dir.nodes[i];
      if !CountryMatches(entryCountry, e.country) || e.exit.exitId in exclude {
        EntryRuledOut(dir, q, i, |dir.nodes|);
        continue;
      }
      pairs := CircuitsThrough(dir, policy, i, q, pairs);
    }
  }

  /** The inner loop: every exit that may follow the entry at `i`. */
  method CircuitsThrough(dir: VerifiedDirectory, policy: CircuitPolicy, i: nat, q: CircuitQuery,
                         before: seq<(nat, nat)>)
    returns (pairs: seq<(nat, nat)>)
    requires policy == PolicyFor(dir) && i < |dir.nodes|
    requires CountryMatches(q.entryCountry, dir.nodes[i].country) && dir.nodes[i].exit.exitId !in q.exclude
    ensures pairs == before + Row(dir, q, i, |dir.nodes|)
  {
    var e := dir.nodes[i];
    pairs := before;
    for j := 0 to |dir.nodes|
      invariant pairs == before + Row(dir, q, i, j)
    {
      var x := dir.nodes[j];
      LegalByGuards(dir, q, i, j);
      if i == j || !CountryMatches(q.exitCountry, x.country) || x.exit.exitId in q.exclude {
        continue;
      }
      if CircuitPermitted(policy.asDiversityRequired, e.country, e.asn, x.country, x.asn,
                          e.relay.relayId != x.relay.relayId) {
        pairs := pairs + [(i, j)];
      }
    }
  }

  /** The loop's guards and the policy check together are legality. */
  lemma LegalByGuards(dir: VerifiedDirectory, q: CircuitQuery, i: nat, j: nat)
    requires i < |dir.nodes| && j < |dir.nodes|
    ensures var e, x := dir.nodes[i], dir.nodes[j];
            Legal(dir, q, i, j) <==>
            && CountryMatches(q.entryCountry, e.country) && e.exit.exitId !in q.exclude
            && i != j && CountryMatches(q.exitCountry, x.country) && x.exit.exitId !in q.exclude
            && CircuitPermitted(PolicyFor(dir).asDiversityRequired, e.country, e.asn, x.country, x.asn,
                                e.relay.relayId != x.relay.relayId)
  {
  }

  /** An entry ruled out by its country or a drain has an empty row. */
  lemma {:induction false} EntryRuledOut(dir: VerifiedDirectory, q: CircuitQuery, i: nat, m: nat)
    requires i < |dir.nodes|
    requires !CountryMatches(q.entryCountry, dir.nodes[i].country) || dir.nodes[i].exit.exitId in q.exclude
    ensures Row(dir, q, i, m) == []
  {
    if m > 0 {
      EntryRuledOut(dir, q, i, m - 1);
    }
  }

  /** Strictly increasing in lexicographic order, hence without repetition. */
  ghost predicate Increasing(pairs: seq<(nat, nat)>) {
    forall a, b :: 0 <= a < b < |pairs| ==>
      pairs[a].0 < pairs[b].0 || (pairs[a].0 == pairs[b].0 && pairs[a].1 < pairs[b].1)
  }

  lemma {:induction false} RowExact(dir: VerifiedDirectory, q: CircuitQuery, i: nat, m: nat)
    ensures forall p :: p in Row(dir, q, i, m) <==> p.0 == i && p.1 < m && Legal(dir, q, i, p.1)
    ensures Increasing(Row(dir, q, i, m))
  {
    if m > 0 {
      RowExact(dir, q, i, m - 1);
      var r := Row(dir, q, i, m - 1);
      forall p ensures p in Row(dir, q, i, m) <==> p.0 == i && p.1 < m && Legal(dir, q, i, p.1) {
        assert p in r + [(i, m - 1)] <==> p in r || p == (i, m - 1);
      }
      forall k | 0 <= k < |r| ensures r[k].0 == i && r[k].1 < m - 1 {
        assert r[k] in r;
      }
    }
  }

  /** Rows of later entries come after. */
  lemma IncreasingConcat(rs: seq<(nat, nat)>, r: seq<(nat, nat)>, n: nat)
    requires Increasing(rs) && Increasing(r)
    requires (forall p :: p in rs ==> p.0 < n) && (forall p :: p in r ==> p.0 == n)
    ensures Increasing(rs + r)
  {
    forall a, b | 0 <= a < b < |rs + r|
      ensures (rs + r)[a].0 < (rs + r)[b].0 || ((rs + r)[a].0 == (rs + r)[b].0 && (rs + r)[a].1 < (rs + r)[b].1)
    {
      if a < |rs| <= b {
        assert rs[a] in rs && r[b - |rs|] in r;
      }
    }
  }

  lemma {:induction false} RowsExact(dir: VerifiedDirectory, q: CircuitQuery, n: nat)
    ensures forall p :: p in Rows(dir, q, n) <==> p.0 < n && Legal(dir, q, p.0, p.1)
    ensures Increasing(Rows(dir, q, n))
  {
    if n > 0 {
      RowsExact(dir, q, n - 1);
      RowExact(dir, q, n - 1, |dir.nodes|);
      var rs, r := Rows(dir, q, n - 1), Row(dir, q, n - 1, |dir.nodes|);
      forall p ensures p in Rows(dir, q, n) <==> p.0 < n && Legal(dir, q, p.0, p.1) {
        assert p in rs + r <==> p in rs || p in r;
      }
      IncreasingConcat(rs, r, n - 1);
    }
  }

  /** The loops return all and only the legal pairs, once each, in order. */
  lemma ValidPairsExact(dir: VerifiedDirectory, q: CircuitQuery)
    ensures forall p :: p in ValidPairs(dir, q) <==> Legal(dir, q, p.0, p.1)
    ensures Increasing(ValidPairs(dir, q))
  {
    RowsExact(dir, q, |dir.nodes|);
  }

  /** Without hints a circuit is legal in both directions or in neither. */
  lemma Symmetric(dir: VerifiedDirectory, exclude: seq<Id>, i: nat, j: nat)
    ensures var q := CircuitQuery("", "", exclude);
            (i, j) in ValidPairs(dir, q) <==> (j, i) in ValidPairs(dir, q)
  {
    var q := CircuitQuery("", "", exclude);
    ValidPairsExact(dir, q);
    if i < |dir.nodes| && j < |dir.nodes| {
      var e, x := dir.nodes[i].country, dir.nodes[j].country;
      assert EqIgnoreCase(e, x) <==> EqIgnoreCase(x, e);
    }
  }

  /** The same text but for the case of its ASCII letters. */
  predicate SameLetters(a: string, b: string) {
    |a| == |b| && forall i :: 0 <= i < |a| ==>
      || a[i] == b[i]
      || ('A' <= a[i] <= 'Z' && b[i] as int == a[i] as int + 32)
      || ('A' <= b[i] <= 'Z' && a[i] as int == b[i] as int + 32)
  }

  lemma SameLettersIff(a: string, b: string)
    ensures EqIgnoreCase(a, b) <==> SameLetters(a, b)
  {
    assert forall i :: 0 <= i < |a| == |b| ==> (LowerChar(a[i]) == LowerChar(b[i]) <==>
      || a[i] == b[i]
      || ('A' <= a[i] <= 'Z' && b[i] as int == a[i] as int + 32)
      || ('A' <= b[i] <= 'Z' && a[i] as int == b[i] as int + 32));
  }

  /** Legality on the nodes' own fields: both country hints, absent or met; neither node in the
      avoid set; two relay ids; two countries; and, once two nodes of the fleet have different
      known ASNs, two known ASNs. */
  lemma OfferedMeans(dir: VerifiedDirectory, q: CircuitQuery, i: nat, j: nat)
    ensures (i, j) in ValidPairs(dir, q) <==>
            i < |dir.nodes| && j < |dir.nodes| &&
            var e, x := dir.nodes[i], dir.nodes[j];
            && (q.entryCountry == "" || SameLetters(q.entryCountry, e.country))
            && (q.exitCountry == "" || SameLetters(q.exitCountry, x.country))
            && e.exit.exitId !in q.exclude && x.exit.exitId !in q.exclude
            && e.relay.relayId != x.relay.relayId
            && !SameLetters(e.country, x.country)
            && (SpansTwoAsns(dir) ==> e.asn != 0 && x.asn != 0 && e.asn != x.asn)
  {
    ValidPairsExact(dir, q);
    SpansIff(dir);
    if i < |dir.nodes| && j < |dir.nodes| {
      var e, x := dir.nodes[i], dir.nodes[j];
      SameLettersIff(q.entryCountry, e.country);
      SameLettersIff(q.exitCountry, x.country);
      SameLettersIff(e.country, x.country);
    }
  }

  ghost predicate SpansTwoAsns(dir: VerifiedDirectory) {
    exists n, m :: n in dir.nodes && m in dir.nodes && n.asn != 0 && m.asn != 0 && n.asn != m.asn
  }

  lemma SpansIff(dir: VerifiedDirectory)
    ensures PolicyFor(dir).asDiversityRequired <==> SpansTwoAsns(dir)
  {
    var asns := Asns(dir.nodes);
    DiversityRequiredIff(asns);
    if PolicyFor(dir).asDiversityRequired {
      var a, b :| 0 <= a < |asns| && 0 <= b < |asns| && AsDiverse(asns[a], asns[b]);
      assert dir.nodes[a] in dir.nodes && dir.nodes[b] in dir.nodes;
    }
    if SpansTwoAsns(dir) {
      var n, m :| n in dir.nodes && m in dir.nodes && n.asn != 0 && m.asn != 0 && n.asn != m.asn;
      var a :| 0 <= a < |dir.nodes| && dir.nodes[a] == n;
      var b :| 0 <= b < |dir.nodes| && dir.nodes[b] == m;
      assert AsDiverse(asns[a], asns[b]);
    }
  }

  /** The fleet with every country spelled in another letter case. */
  ghost predicate Respelled(dir: VerifiedDirectory, dir': VerifiedDirectory) {
    && |dir'.nodes| == |dir.nodes|
    && forall i :: 0 <= i < |dir.nodes| ==>
         && SameLetters(dir.nodes[i].country, dir'.nodes[i].country)
         && dir'.nodes[i] == dir.nodes[i].(country := dir'.nodes[i].country)
  }

  /** The letter case of countries, in the fleet or in the hints, changes no offered circuit. */
  lemma {:induction false} CaseBlind(dir: VerifiedDirectory, dir': VerifiedDirectory, q: CircuitQuery,
                                     q': CircuitQuery, i: nat, j: nat)
    requires Respelled(dir, dir') && q'.exclude == q.exclude
    requires SameLetters(q.entryCountry, q'.entryCountry) && SameLetters(q.exitCountry, q'.exitCountry)
    ensures (i, j) in ValidPairs(dir, q) <==> (i, j) in ValidPairs(dir', q')
  {
    assert Asns(dir.nodes) == Asns(dir'.nodes);
    ValidPairsExact(dir, q);
    ValidPairsExact(dir', q');
    if i < |dir.nodes| && j < |dir.nodes| {
      var (e, x, e', x') := (dir.nodes[i], dir.nodes[j], dir'.nodes[i], dir'.nodes[j]);
      SameLettersIff(e.country, e'.country);
      SameLettersIff(x.country, x'.country);
      SameLettersIff(q.entryCountry, q'.entryCountry);
      SameLettersIff(q.exitCountry, q'.exitCountry);
      Respell(e.country, e'.country, x.country, x'.country);
      Respell(q.entryCountry, q'.entryCountry, e.country, e'.country);
      Respell(q.exitCountry, q'.exitCountry, x.country, x'.country);
    }
  }

  lemma Respell(a: string, a': string, b: string, b': string)
    requires EqIgnoreCase(a, a') && EqIgnoreCase(b, b')
    ensures EqIgnoreCase(a, b) <==> EqIgnoreCase(a', b')
  {
  }

  /** Draining more nodes removes exactly the circuits through them, on either leg. */
  lemma DrainRemoves(dir: VerifiedDirectory, q: CircuitQuery, more: seq<Id>, p: (nat, nat))
    ensures p in ValidPairs(dir, q.(exclude := q.exclude + more)) <==>
            p in ValidPairs(dir, q) && p.0 < |dir.nodes| && p.1 < |dir.nodes| &&
            dir.nodes[p.0].exit.exitId !in more && dir.nodes[p.1].exit.exitId !in more
  {
    ValidPairsExact(dir, q);
    ValidPairsExact(dir, q.(exclude := q.exclude + more));
  }

  /** Once two nodes have different known ASNs, a node of unknown ASN is in no circuit. */
  lemma UnknownAsnUnused(dir: VerifiedDirectory, q: CircuitQuery, a: nat, b: nat, p: (nat, nat))
    requires a < |dir.nodes| && b < |dir.nodes|
    requires AsDiverse(dir.nodes[a].asn, dir.nodes[b].asn)
    requires p in ValidPairs(dir, q)
    ensures p.0 < |dir.nodes| && p.1 < |dir.nodes| && AsDiverse(dir.nodes[p.0].asn, dir.nodes[p.1].asn)
  {
    ValidPairsExact(dir, q);
    DiversityRequiredIff(Asns(dir.nodes));
    assert Asns(dir.nodes)[a] != Asns(dir.nodes)[b];
  }

  /** The pair view offers the circuit (i, j), and the flat view permits it. */
  predicate PairViewAllows(dir: VerifiedDirectory, i: nat, j: nat) {
    (i, j) in ValidPairs(dir, ANY)
  }

  predicate FlatViewAllows(dir: VerifiedDirectory, pqOk: PqCheck, i: nat, j: nat)
    requires i < |dir.nodes| && j < |dir.nodes|
  {
    PolicyFor(dir).Permits(Entries(dir)[i], Exits(pqOk, dir)[j])
  }

  /** Two nodes that share one kind of id share the other. */
  predicate IdsAgree(a: NodeEntry, b: NodeEntry) {
    a.relay.relayId == b.relay.relayId <==> a.exit.exitId == b.exit.exitId
  }

  /** The country and AS clauses of the rule, which both views apply alike. */
  predicate DiverseNodes(policy: CircuitPolicy, a: NodeEntry, b: NodeEntry) {
    !EqIgnoreCase(a.country, b.country) && (policy.asDiversityRequired ==> AsDiverse(a.asn, b.asn))
  }

  /** The two views of the diversity rule give one verdict on a pair of nodes exactly when
      the nodes share both ids or neither, or fail the country or AS clause anyway: the pair
      view tests relay ids, the flat view exit ids. */
  lemma ViewsAgreeOnPair(dir: VerifiedDirectory, pqOk: PqCheck, i: nat, j: nat)
    requires i < |dir.nodes| && j < |dir.nodes|
    ensures (PairViewAllows(dir, i, j) <==> FlatViewAllows(dir, pqOk, i, j)) <==>
            IdsAgree(dir.nodes[i], dir.nodes[j]) || !DiverseNodes(PolicyFor(dir), dir.nodes[i], dir.nodes[j])
  {
    ValidPairsExact(dir, ANY);
  }

  /** On a dual-role fleet, where a node's relay id is its exit id, the rule is the same. */
  lemma DualRoleViewsAgree(dir: VerifiedDirectory, pqOk: PqCheck, i: nat, j: nat)
    requires forall n :: n in dir.nodes ==> n.relay.relayId == n.exit.exitId
    requires i < |dir.nodes| && j < |dir.nodes|
    ensures PairViewAllows(dir, i, j) <==> FlatViewAllows(dir, pqOk, i, j)
  {
    assert dir.nodes[i] in dir.nodes && dir.nodes[j] in dir.nodes;
    ViewsAgreeOnPair(dir, pqOk, i, j);
  }

  /** A node of unknown ASN with the given ids, each one repeated byte. */
  function BareNode(relayTag: byte, exitTag: byte, country: string): (n: NodeEntry)
    ensures n.relay.relayId[0] == relayTag && n.exit.exitId[0] == exitTag && n.country == country && n.asn == 0
    ensures n.relay.relayId == seq(16, _ => relayTag) && n.exit.exitId == seq(16, _ => exitTag)
  {
    var key: Key32 := seq(32, _ => 0);
    NodeEntry(RelayDescriptor(seq(16, _ => relayTag), key, "", None, None, false, []),
              ExitDescriptor(seq(16, _ => exitTag), key, key, None, None, [], false, None), country, "", 0, 1, "", None)
  }

  function TwoNodes(a: NodeEntry, b: NodeEntry): VerifiedDirectory {
    VerifiedDirectory(seq(32, _ => 0), [a, b], 0, 0, 0, 0)
  }

  /** Two nodes that share only their exit id: offered as a pair, refused by the flat view. */
  lemma SharedExitIdDiffers(pqOk: PqCheck)
    ensures var dir := TwoNodes(BareNode(1, 3, "DE"), BareNode(2, 3, "NL"));
            PairViewAllows(dir, 0, 1) && !FlatViewAllows(dir, pqOk, 0, 1)
  {
    var dir := TwoNodes(BareNode(1, 3, "DE"), BareNode(2, 3, "NL"));
    NoDiversityRequired(dir);
    ValidPairsExact(dir, ANY);
    assert dir.nodes[0].relay.relayId != dir.nodes[1].relay.relayId;
    DifferentCountries();
  }

  /** Two nodes that share only their relay id: permitted by the flat view, not offered. */
  lemma SharedRelayIdDiffers(pqOk: PqCheck)
    ensures var dir := TwoNodes(BareNode(3, 1, "DE"), BareNode(3, 2, "NL"));
            !PairViewAllows(dir, 0, 1) && FlatViewAllows(dir, pqOk, 0, 1)
  {
    var dir := TwoNodes(BareNode(3, 1, "DE"), BareNode(3, 2, "NL"));
    NoDiversityRequired(dir);
    ValidPairsExact(dir, ANY);
    assert dir.nodes[0].exit.exitId != dir.nodes[1].exit.exitId;
    DifferentCountries();
  }

  lemma NoDiversityRequired(dir: VerifiedDirectory)
    requires forall n :: n in dir.nodes ==> n.asn == 0
    ensures !PolicyFor(dir).asDiversityRequired
  {
    DiversityRequiredIff(Asns(dir.nodes));
    forall i | 0 <= i < |dir.nodes| ensures Asns(dir.nodes)[i] == 0 {
      assert dir.nodes[i] in dir.nodes;
    }
  }

  lemma DifferentCountries()
    ensures !EqIgnoreCase("DE", "NL")
  {
    assert LowerChar("DE"[0]) != LowerChar("NL"[0]);
  }
}
