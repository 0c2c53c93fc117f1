/** The verified multi-hop directory, its flat entry and exit views, and the one
    diversity rule both views share. */
module Directory {
  import opened Wrappers
  import opened Machine
  import opened Text

  /** A socket address, as an opaque text. */
  type Address = string

  datatype RelayDescriptor = RelayDescriptor(
    relayId: Id,
    ed25519: Key32,
    endpoint: Address,
    endpointV6: Option<Address>,
    coverDomain: Option<string>,
    tcpFallback: bool,
    signature: seq<byte>)

  datatype ExitDescriptor = ExitDescriptor(
    exitId: Id,
    ed25519: Key32,
    x25519: Key32,
    endpoint: Option<Address>,
    coverDomain: Option<string>,
    signature: seq<byte>,
    dnsDisabled: bool,
    mlkem768: Option<seq<byte>>)

  datatype NodeEntry = NodeEntry(
    relay: RelayDescriptor,
    exit: ExitDescriptor,
    country: string,
    city: string,
    asn: u32,
    weight: u64,
    attestationHex: string,
    edgeCertSha256: Option<string>)

  datatype VerifiedDirectory = VerifiedDirectory(
    operationalKey: Key32,
    nodes: seq<NodeEntry>,
    generation: u64,
    signedAt: u64,
    expiresAt: u64,
    dropped: nat)

  datatype VerifiedEntry = VerifiedEntry(
    relayEd25519: Key32,
    endpoint: Address,
    endpointV6: Option<Address>,
    country: string,
    asn: u32,
    city: string,
    weight: u64,
    coverDomain: Option<string>,
    tcpFallback: bool,
    edgeCertSha256: Option<string>,
    exitId: Id)

  datatype VerifiedExit = VerifiedExit(
    exitId: Id,
    exitEd25519: Key32,
    exitX25519: Key32,
    endpoint: Address,
    endpointV6: Option<Address>,
    country: string,
    asn: u32,
    city: string,
    weight: u64,
    dnsDisabled: bool,
    coverDomain: Option<string>,
    tcpFallback: bool,
    edgeCertSha256: Option<string>,
    mlkem768: Option<seq<byte>>)

  /** The post-quantum descriptor check, an opaque predicate of the operational
      key and the exit descriptor. */
  type PqCheck = (Key32, ExitDescriptor) -> bool

  function EntryOf(n: NodeEntry): VerifiedEntry {
    VerifiedEntry(n.relay.ed25519, n.relay.endpoint, n.relay.endpointV6, n.country, n.asn, n.city, n.weight,
                  n.relay.coverDomain, n.relay.tcpFallback, n.edgeCertSha256, n.exit.exitId)
  }

  function ExitOf(pqOk: PqCheck, key: Key32, n: NodeEntry): VerifiedExit {
    VerifiedExit(n.exit.exitId, n.exit.ed25519, n.exit.x25519, n.relay.endpoint, n.relay.endpointV6,
                 n.country, n.asn, n.city, n.weight, n.exit.dnsDisabled, n.relay.coverDomain,
                 n.relay.tcpFallback, n.edgeCertSha256,
                 if pqOk(key, n.exit) then n.exit.mlkem768 else None)
  }

  function Entries(dir: VerifiedDirectory): seq<VerifiedEntry> {
    seq(|dir.nodes|, i requires 0 <= i < |dir.nodes| => EntryOf(dir.nodes[i]))
  }

  function Exits(pqOk: PqCheck, dir: VerifiedDirectory): seq<VerifiedExit> {
    seq(|dir.nodes|, i requires 0 <= i < |dir.nodes| => ExitOf(pqOk, dir.operationalKey, dir.nodes[i]))
  }

  /** The entry view of a node: dialed and identified by its relay, named by its exit id. */
  lemma EntriesMeans(dir: VerifiedDirectory, i: nat)
    requires i < |dir.nodes|
    ensures |Entries(dir)| == |dir.nodes|
    ensures var (n, e) := (dir.nodes[i], Entries(dir)[i]);
            && e.relayEd25519 == n.relay.ed25519 && e.endpoint == n.relay.endpoint && e.endpointV6 == n.relay.endpointV6
            && e.country == n.country && e.asn == n.asn && e.city == n.city && e.weight == n.weight
            && e.coverDomain == n.relay.coverDomain && e.tcpFallback == n.relay.tcpFallback
            && e.edgeCertSha256 == n.edgeCertSha256 && e.exitId == n.exit.exitId
  {
  }

  /** The exit view: keys of the exit, the dial fields of the same box, and the post-quantum key
      only where it is attested. */
  lemma ExitsMeans(pqOk: PqCheck, dir: VerifiedDirectory, j: nat)
    requires j < |dir.nodes|
    ensures |Exits(pqOk, dir)| == |dir.nodes|
    ensures var (n, x) := (dir.nodes[j], Exits(pqOk, dir)[j]);
            && x.exitId == n.exit.exitId && x.exitEd25519 == n.exit.ed25519 && x.exitX25519 == n.exit.x25519
            && x.endpoint == n.relay.endpoint && x.endpointV6 == n.relay.endpointV6
            && x.country == n.country && x.asn == n.asn && x.city == n.city && x.weight == n.weight
            && x.dnsDisabled == n.exit.dnsDisabled && x.coverDomain == n.relay.coverDomain
            && x.tcpFallback == n.relay.tcpFallback && x.edgeCertSha256 == n.edgeCertSha256
            && x.mlkem768 == (if pqOk(dir.operationalKey, n.exit) then n.exit.mlkem768 else None)
  {
  }

  // ---- policy ------------------------------------------------------------

  datatype CircuitPolicy = CircuitPolicy(asDiversityRequired: bool) {
    predicate Permits(entry: VerifiedEntry, exit: VerifiedExit) {
      CircuitPermitted(asDiversityRequired, entry.country, entry.asn, exit.country, exit.asn,
                       entry.exitId != exit.exitId)
    }
  }

  predicate CircuitPermitted(asDiversityRequired: bool, entryCountry: string, entryAsn: u32,
                             exitCountry: string, exitAsn: u32, distinctNode: bool)
  {
    && distinctNode
    && !EqIgnoreCase(entryCountry, exitCountry)
    && !(asDiversityRequired && (entryAsn == 0 || exitAsn == 0 || entryAsn == exitAsn))
  }

  /** Two known, different autonomous systems. */
  predicate AsDiverse(a: u32, b: u32) {
    a != 0 && b != 0 && a != b
  }

  function Asns(nodes: seq<NodeEntry>): seq<u32> {
    seq(|nodes|, i requires 0 <= i < |nodes| => nodes[i].asn)
  }

  /** The distinct known ASNs. */
  function AsSpread(asns: seq<u32>): set<u32> {
    set a | a in asns && a != 0
  }

  function PolicyOf(asns: seq<u32>): CircuitPolicy {
    CircuitPolicy(|AsSpread(asns)| >= 2)
  }

  function PolicyFor(dir: VerifiedDirectory): CircuitPolicy {
    PolicyOf(Asns(dir.nodes))
  }

  method FromAsns(asns: seq<u32>) returns (policy: CircuitPolicy)
    ensures policy == PolicyOf(asns)
  {
    var seen: set<u32> := {};
    for i := 0 to |asns|
      invariant seen == AsSpread(asns[..i])
    {
      assert asns[..i + 1] == asns[..i] + [asns[i]];
      if asns[i] != 0 {
        seen := seen + {asns[i]};
      }
    }
    assert asns[..|asns|] == asns;
    policy := CircuitPolicy(|seen| >= 2);
  }

  /** AS diversity is mandatory exactly when two nodes have different known ASNs. */
  lemma DiversityRequiredIff(asns: seq<u32>)
    ensures PolicyOf(asns).asDiversityRequired <==>
            exists i, j :: 0 <= i < |asns| && 0 <= j < |asns| && AsDiverse(asns[i], asns[j])
  {
    var spread := AsSpread(asns);
    if |spread| >= 2 {
      var a :| a in spread;
      assert |spread - {a}| >= 1;
      var b :| b in spread - {a};
      var i :| 0 <= i < |asns| && asns[i] == a;
      var j :| 0 <= j < |asns| && asns[j] == b;
    }
    forall i, j | 0 <= i < |asns| && 0 <= j < |asns| && AsDiverse(asns[i], asns[j])
      ensures |spread| >= 2
    {
      assert spread == (spread - {asns[i], asns[j]}) + {asns[i], asns[j]};
    }
  }

  // ---- dialing an exit through an entry -----------------------------------

  function ViaEntry(exit: VerifiedExit, entry: VerifiedEntry, policy: CircuitPolicy): Option<VerifiedExit> {
    if !policy.Permits(entry, exit) then None
    else Some(exit.(
      endpoint := entry.endpoint,
      endpointV6 := entry.endpointV6,
      coverDomain := entry.coverDomain,
      tcpFallback := entry.tcpFallback,
      edgeCertSha256 := entry.edgeCertSha256,
      exitEd25519 := entry.relayEd25519))
  }

  /** Dialing through an entry: refused on one node, one country, or, where diversity is
      required, on unknown or equal ASNs; otherwise six fields are the entry's and all others
      the exit's. */
  lemma ViaEntryMeans(exit: VerifiedExit, entry: VerifiedEntry, policy: CircuitPolicy)
    ensures ViaEntry(exit, entry, policy) == None <==>
            || entry.exitId == exit.exitId || EqIgnoreCase(entry.country, exit.country)
            || (policy.asDiversityRequired && (entry.asn == 0 || exit.asn == 0 || entry.asn == exit.asn))
    ensures ViaEntry(exit, entry, policy).Some? ==>
              ViaEntry(exit, entry, policy).value ==
              VerifiedExit(exit.exitId, entry.relayEd25519, exit.exitX25519, entry.endpoint, entry.endpointV6,
                           exit.country, exit.asn, exit.city, exit.weight, exit.dnsDisabled, entry.coverDomain,
                           entry.tcpFallback, entry.edgeCertSha256, exit.mlkem768)
  {
  }

  /** Censorship minimization: the exit egress address is erased, nothing else. */
  function RedactExitEndpoints(nodes: seq<NodeEntry>): seq<NodeEntry> {
    seq(|nodes|, i requires 0 <= i < |nodes| => nodes[i].(exit := nodes[i].exit.(endpoint := None)))
  }

  lemma RedactMeans(nodes: seq<NodeEntry>, i: nat)
    requires i < |nodes|
    ensures |RedactExitEndpoints(nodes)| == |nodes|
    ensures var (n, r) := (nodes[i], RedactExitEndpoints(nodes)[i]);
            r.exit.endpoint == None && r.(exit := r.exit.(endpoint := n.exit.endpoint)) == n
  {
  }
}
