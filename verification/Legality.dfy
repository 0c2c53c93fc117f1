/** From the pinned root to the dialed circuit: what holds of every selection, whatever
    the unsigned advisory, the measurements and the history say. */
module Legality {
  import opened Wrappers
  import opened Machine
  import opened Text
  import opened Directory
  import opened Circuits
  import opened Vouching
  import opened Ranking
  import opened PathAware
  import opened PathAwareLaws

  /** The node was in the served directory, and the operational key certifies it. */
  ghost predicate Vouched(crypto: Crypto, d: SignedDirectory, key: Key32, n: NodeEntry) {
    n in d.nodes && Certified(crypto, key, n)
  }

  /** The dial view of a circuit: the client talks to the entry, and seals to the exit. */
  ghost predicate DialsEntrySealsToExit(pqOk: PqCheck, key: Key32, e: NodeEntry, x: NodeEntry, c: VerifiedExit) {
    && c.endpoint == e.relay.endpoint && c.endpointV6 == e.relay.endpointV6
    && c.coverDomain == e.relay.coverDomain && c.tcpFallback == e.relay.tcpFallback
    && c.edgeCertSha256 == e.edgeCertSha256 && c.exitEd25519 == e.relay.ed25519
    && c.exitId == x.exit.exitId && c.exitX25519 == x.exit.x25519 && c.dnsDisabled == x.exit.dnsDisabled
    && c.mlkem768 == (if pqOk(key, x.exit) then x.exit.mlkem768 else None)
    && c.country == x.country && c.city == x.city && c.asn == x.asn && c.weight == x.weight
  }

  /** What an offered circuit guarantees. */
  ghost predicate LegalCircuit(crypto: Crypto, d: SignedDirectory, v: VerifiedDirectory, q: CircuitQuery, i: nat,
                               j: nat)
  {
    && Legal(v, q, i, j)
    && Vouched(crypto, d, v.operationalKey, v.nodes[i]) && Vouched(crypto, d, v.operationalKey, v.nodes[j])
    && var c := ViaEntry(Exits(crypto.exitPqOk, v)[j], Entries(v)[i], PolicyFor(v));
       && (c.Some? <==> v.nodes[i].exit.exitId != v.nodes[j].exit.exitId)
       && (c.Some? ==> DialsEntrySealsToExit(crypto.exitPqOk, v.operationalKey, v.nodes[i], v.nodes[j], c.value))
  }

  lemma OfferedIsLegal(crypto: Crypto, d: SignedDirectory, v: VerifiedDirectory, q: CircuitQuery, p: Pair)
    requires VerifiedAs(crypto, d, v) && p in ValidPairs(v, q)
    ensures LegalCircuit(crypto, d, v, q, p.0, p.1)
  {
    ValidPairsExact(v, q);
    ValidPairsExact(v, ANY);
    ViewsAgreeOnPair(v, crypto.exitPqOk, p.0, p.1);
    var at := VerifiedNodesExact(crypto, d, v);
    assert v.nodes[p.0] in v.nodes && v.nodes[p.1] in v.nodes;
  }

  lemma SomeLegalIff(v: VerifiedDirectory, q: CircuitQuery)
    ensures InRange(v, ValidPairs(v, q))
    ensures ValidPairs(v, q) == [] <==> forall i, j :: !Legal(v, q, i, j)
  {
    ValidPairsExact(v, q);
    var pairs := ValidPairs(v, q);
    if pairs == [] {
      forall i: nat, j: nat ensures !Legal(v, q, i, j) {
        assert (i, j) !in pairs;
      }
    } else {
      assert pairs[0] in pairs;
    }
  }

  /** The operational key of an accepted directory is certified by a pinned root. */
  lemma PinnedRootCertifies(crypto: Crypto, inputLen: nat, d: SignedDirectory, servers: seq<string>, roots: seq<string>,
                            v: VerifiedDirectory)
    requires Accepted(crypto, inputLen, d, servers, roots) && VerifiedAs(crypto, d, v) && roots != []
    ensures CertifiedByRoot(crypto, roots, v.operationalKey)
  {
    var cert := DecodeSixtyFour(d.operationalCertHex).value;
    var r :| r in roots && RootCertifies(crypto, r, v.operationalKey, cert);
    var root := DecodeVerifyingKey(crypto, r).value;
    KeyTextExact(crypto, r, root);
    assert SpellsKey(crypto, r, root) && crypto.certOk(root, v.operationalKey, cert);
  }

  /** A pinned text spells a root key that signed a certificate of the operational key. */
  ghost predicate CertifiedByRoot(crypto: Crypto, roots: seq<string>, key: Key32) {
    exists r, root, cert :: r in roots && SpellsKey(crypto, r, root) && crypto.certOk(root, key, cert)
  }

  /** Every selection over the circuits of a directory accepted under a pinned root: an
      offered pair or nothing, two distinct vouched nodes under a key that root certified,
      in different countries, outside the avoid set; and, exactly when the two exit ids
      differ, a circuit that dials the entry and seals to the exit. */
  lemma EverySelectionLegal(crypto: Crypto, inputLen: nat, d: SignedDirectory, servers: seq<string>, roots: seq<string>,
                            v: VerifiedDirectory, q: CircuitQuery, rtt: NodeRtt, sig: Signal, prev: Option<(Id, Id)>)
    requires Accepted(crypto, inputLen, d, servers, roots) && VerifiedAs(crypto, d, v) && roots != []
    ensures CertifiedByRoot(crypto, roots, v.operationalKey)
    ensures InRange(v, ValidPairs(v, q))
    ensures var p := SelectCircuit(v, ValidPairs(v, q), rtt, sig, prev);
            && (p.None? <==> forall i, j :: !Legal(v, q, i, j))
            && (p.Some? ==> LegalCircuit(crypto, d, v, q, p.value.0, p.value.1))
  {
    PinnedRootCertifies(crypto, inputLen, d, servers, roots, v);
    SomeLegalIff(v, q);
    var pairs := ValidPairs(v, q);
    OnlyBiasesTheOrder(v, pairs, rtt, sig, prev);
    if pairs != [] {
      OfferedIsLegal(crypto, d, v, q, SelectCircuit(v, pairs, rtt, sig, prev).value);
    }
  }

  /** What the flat view guarantees of the entry at `i` for the exit at `j`. */
  ghost predicate LegalEntry(crypto: Crypto, d: SignedDirectory, v: VerifiedDirectory, i: nat, j: nat) {
    && i < |v.nodes| && j < |v.nodes| && FlatViewAllows(v, crypto.exitPqOk, i, j)
    && Vouched(crypto, d, v.operationalKey, v.nodes[i]) && Vouched(crypto, d, v.operationalKey, v.nodes[j])
    && var c := ViaEntry(Exits(crypto.exitPqOk, v)[j], Entries(v)[i], PolicyFor(v));
       c.Some? && DialsEntrySealsToExit(crypto.exitPqOk, v.operationalKey, v.nodes[i], v.nodes[j], c.value)
  }

  lemma PermittedIsLegal(crypto: Crypto, d: SignedDirectory, v: VerifiedDirectory, i: nat, j: nat)
    requires VerifiedAs(crypto, d, v) && i < |v.nodes| && j < |v.nodes| && FlatViewAllows(v, crypto.exitPqOk, i, j)
    ensures LegalEntry(crypto, d, v, i, j)
  {
    var at := VerifiedNodesExact(crypto, d, v);
    assert v.nodes[i] in v.nodes && v.nodes[j] in v.nodes;
  }

  /** What a flat-view selection for the exit at `j` may return. */
  ghost predicate LegalChoice(crypto: Crypto, d: SignedDirectory, v: VerifiedDirectory, j: nat,
                              r: Option<VerifiedEntry>)
    requires j < |v.nodes|
  {
    match r
    case None => forall i :: 0 <= i < |v.nodes| ==> !FlatViewAllows(v, crypto.exitPqOk, i, j)
    case Some(e) => exists i :: 0 <= i < |v.nodes| && LegalEntry(crypto, d, v, i, j) && Entries(v)[i] == e
  }

  lemma ChoiceIsLegal(crypto: Crypto, d: SignedDirectory, v: VerifiedDirectory, j: nat, exit: VerifiedExit,
                      r: Option<VerifiedEntry>)
    requires VerifiedAs(crypto, d, v) && j < |v.nodes| && exit == Exits(crypto.exitPqOk, v)[j]
    requires r.Some? <==> exists e :: e in Entries(v) && PolicyFor(v).Permits(e, exit)
    requires r.Some? ==> r.value in Entries(v) && PolicyFor(v).Permits(r.value, exit)
    ensures LegalChoice(crypto, d, v, j, r)
  {
    if r.Some? {
      var i := EntryListed(crypto, v, r.value, j);
      PermittedIsLegal(crypto, d, v, i, j);
    } else {
      forall i | 0 <= i < |v.nodes| ensures !FlatViewAllows(v, crypto.exitPqOk, i, j) {
        assert Entries(v)[i] in Entries(v);
      }
    }
  }

  /** The same end to end for the flat view: an entry is selected for the exit at `j` exactly
      when one is permitted, it is a vouched node of the directory, and dialing the exit
      through it always succeeds, since the flat view tests exit ids as the dial does. */
  lemma EveryEntrySelectionLegal(crypto: Crypto, d: SignedDirectory, v: VerifiedDirectory, j: nat,
                                 rtt: EntryRtt, sig: Signal, prev: Option<Id>)
    requires VerifiedAs(crypto, d, v) && j < |v.nodes|
    ensures LegalChoice(crypto, d, v, j,
                        SelectEntry(Entries(v), Exits(crypto.exitPqOk, v)[j], PolicyFor(v), rtt, sig, prev))
  {
    var exit := Exits(crypto.exitPqOk, v)[j];
    EntryOnlyBiasesTheOrder(Entries(v), exit, PolicyFor(v), rtt, sig, prev);
    ChoiceIsLegal(crypto, d, v, j, exit, SelectEntry(Entries(v), exit, PolicyFor(v), rtt, sig, prev));
  }

  lemma EntryListed(crypto: Crypto, v: VerifiedDirectory, e: VerifiedEntry, j: nat) returns (i: nat)
    requires j < |v.nodes| && e in Entries(v) && PolicyFor(v).Permits(e, Exits(crypto.exitPqOk, v)[j])
    ensures i < |v.nodes| && Entries(v)[i] == e && FlatViewAllows(v, crypto.exitPqOk, i, j)
  {
    i :| 0 <= i < |v.nodes| && Entries(v)[i] == e;
  }

  /** A step that selects over the circuits of one accepted directory. */
  ghost predicate AcceptedStep(crypto: Crypto, inputLen: nat, d: SignedDirectory, servers: seq<string>,
                               roots: seq<string>, q: CircuitQuery, st: Step)
  {
    && Accepted(crypto, inputLen, d, servers, roots) && VerifiedAs(crypto, d, st.dir) && roots != []
    && st.pairs == ValidPairs(st.dir, q)
  }

  /** At the end of any run, whatever the earlier steps were fed, the circuit in use carries
      the ids of a legal circuit of the last directory; none is in use only if none is legal. */
  lemma RunEndsLegal(crypto: Crypto, inputLen: nat, d: SignedDirectory, servers: seq<string>, roots: seq<string>,
                     q: CircuitQuery, steps: seq<Step>, prev: Option<(Id, Id)>)
    requires steps != [] && forall st :: st in steps ==> st.Valid()
    requires AcceptedStep(crypto, inputLen, d, servers, roots, q, steps[|steps| - 1])
    ensures var v := steps[|steps| - 1].dir;
            match Run(steps, prev)
            case None => forall i, j :: !Legal(v, q, i, j)
            case Some(ids) => exists i, j :: LegalCircuit(crypto, d, v, q, i, j) && ids == CircuitIds(v, (i, j))
  {
    var st := steps[|steps| - 1];
    var before := Run(steps[..|steps| - 1], prev);
    EverySelectionLegal(crypto, inputLen, d, servers, roots, st.dir, q, st.rtt, st.sig, before);
  }

  /** Redacting the exit endpoints is invisible to a client: it offers the same circuits and
      the same entry and exit views. */
  lemma RedactionInvisible(crypto: Crypto, v: VerifiedDirectory, q: CircuitQuery)
    requires EndpointUnsigned(crypto)
    ensures var v' := v.(nodes := RedactExitEndpoints(v.nodes));
            && ValidPairs(v', q) == ValidPairs(v, q)
            && Entries(v') == Entries(v)
            && Exits(crypto.exitPqOk, v') == Exits(crypto.exitPqOk, v)
            && forall n :: n in v'.nodes ==> n.exit.endpoint == None
  {
    var v' := v.(nodes := RedactExitEndpoints(v.nodes));
    assert Asns(v'.nodes) == Asns(v.nodes);
    SameRows(v, v', q, |v.nodes|);
    assert Entries(v') == Entries(v);
    forall i | 0 <= i < |v.nodes| ensures Exits(crypto.exitPqOk, v')[i] == Exits(crypto.exitPqOk, v)[i] {
      var x := v.nodes[i].exit;
      assert crypto.exitPqOk(v.operationalKey, x.(endpoint := None)) == crypto.exitPqOk(v.operationalKey, x);
    }
    assert Exits(crypto.exitPqOk, v') == Exits(crypto.exitPqOk, v);
  }

  lemma {:induction false} SameRows(v: VerifiedDirectory, v': VerifiedDirectory, q: CircuitQuery, n: nat)
    requires v' == v.(nodes := RedactExitEndpoints(v.nodes)) && PolicyFor(v') == PolicyFor(v) && n <= |v.nodes|
    ensures Rows(v', q, n) == Rows(v, q, n)
  {
    if n > 0 {
      SameRows(v, v', q, n - 1);
      SameRow(v, v', q, n - 1, |v.nodes|);
    }
  }

  lemma {:induction false} SameRow(v: VerifiedDirectory, v': VerifiedDirectory, q: CircuitQuery, i: nat, m: nat)
    requires v' == v.(nodes := RedactExitEndpoints(v.nodes)) && PolicyFor(v') == PolicyFor(v)
    ensures Row(v', q, i, m) == Row(v, q, i, m)
  {
    if m > 0 {
      SameRow(v, v', q, i, m - 1);
      assert Legal(v', q, i, m - 1) == Legal(v, q, i, m - 1);
    }
  }
}
