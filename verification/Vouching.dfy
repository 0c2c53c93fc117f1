/** `verify_multihop_directory_any`: the guards, the pinned root, and the loop that
    keeps the vouched nodes and counts the dropped ones. The cryptography is a
    record of opaque predicates. */
module Vouching {
  import opened Wrappers
  import opened Machine
  import opened Text
  import opened Directory

  const MAX_VERIFY_INPUT_LEN := 4 * 1024 * 1024
  const DIRECTORY_VERSION := 2

  datatype SignedDirectory = SignedDirectory(
    version: u32,
    nodes: seq<NodeEntry>,
    generation: u64,
    signedAt: u64,
    expiresAt: u64,
    operationalPubkeyHex: string,
    operationalCertHex: string,
    serverPubkeyHex: string,
    signatureHex: string)

  /** What the envelope signature covers: everything but the signature itself. */
  function Unsigned(d: SignedDirectory): SignedDirectory {
    d.(signatureHex := "")
  }

  datatype DnsAttestation = Attested | Unattested

  /** The signature checks, each an opaque deterministic predicate. The exit
      descriptor checks must not read the exit endpoint (see RedactionPreservesVouching). */
  datatype Crypto = Crypto(
    onCurve: Key32 -> bool,
    envelopeOk: (Key32, SignedDirectory, seq<byte>) -> bool,
    certOk: (Key32, Key32, seq<byte>) -> bool,
    relayOk: (Key32, RelayDescriptor) -> bool,
    exitPqOk: PqCheck,
    exitDns: (Key32, ExitDescriptor) -> Option<DnsAttestation>,
    attestationOk: (Key32, Id, Key32, u32, string, seq<byte>) -> bool)

  datatype DirectoryError =
    | InputTooLarge
    | Json
    | UnsupportedVersion(got: u32)
    | MalformedEdgeCertPin
    | ServerPubkeyMismatch
    | InvalidHex
    | PubkeyNotOnCurve
    | BadEnvelopeSignature
    | BadOperationalCert

  function DecodeVerifyingKey(crypto: Crypto, hex: string): Result<Key32, DirectoryError> {
    match HexDecode(hex)
    case None => Err(InvalidHex)
    case Some(bytes) =>
      if |bytes| != 32 then Err(InvalidHex)
      else if !crypto.onCurve(bytes) then Err(PubkeyNotOnCurve)
      else Ok(bytes)
  }

  function DecodeSixtyFour(hex: string): Option<seq<byte>> {
    match HexDecode(hex)
    case Some(bytes) => if |bytes| == 64 then Some(bytes) else None
    case None => None
  }

  predicate PinAllows(pinned: seq<string>, pubkeyHex: string) {
    pinned == [] || exists p :: p in pinned && EqIgnoreCase(p, pubkeyHex)
  }

  predicate EdgePinOk(n: NodeEntry) {
    n.edgeCertSha256.Some? ==>
      |n.edgeCertSha256.value| == 64 && forall c :: c in n.edgeCertSha256.value ==> HexValue(c).Some?
  }

  predicate ExitVouched(crypto: Crypto, key: Key32, exit: ExitDescriptor) {
    || crypto.exitPqOk(key, exit)
    || match crypto.exitDns(key, exit)
       case None => false
       case Some(a) => a == Attested || !exit.dnsDisabled
  }

  predicate NodeFullyVouched(crypto: Crypto, key: Key32, n: NodeEntry) {
    && crypto.relayOk(key, n.relay)
    && ExitVouched(crypto, key, n.exit)
    && DecodeSixtyFour(n.attestationHex).Some?
    && crypto.attestationOk(key, n.relay.relayId, n.exit.ed25519, n.asn, n.country,
                            DecodeSixtyFour(n.attestationHex).value)
  }

  /** A pinned root decodes and certifies the operational key. */
  ghost predicate RootCertifies(crypto: Crypto, rootHex: string, key: Key32, cert: seq<byte>) {
    DecodeVerifyingKey(crypto, rootHex).Ok? && crypto.certOk(DecodeVerifyingKey(crypto, rootHex).value, key, cert)
  }

  /** Everything an accepted directory has been checked for. */
  ghost predicate Accepted(crypto: Crypto, inputLen: nat, d: SignedDirectory, servers: seq<string>, roots: seq<string>)
  {
    var server := DecodeVerifyingKey(crypto, d.serverPubkeyHex);
    var key := DecodeVerifyingKey(crypto, d.operationalPubkeyHex);
    var cert := DecodeSixtyFour(d.operationalCertHex);
    var sig := DecodeSixtyFour(d.signatureHex);
    && inputLen <= MAX_VERIFY_INPUT_LEN
    && d.version == DIRECTORY_VERSION
    && (forall n :: n in d.nodes ==> EdgePinOk(n))
    && PinAllows(servers, d.serverPubkeyHex)
    && server.Ok? && sig.Some? && crypto.envelopeOk(server.value, Unsigned(d), sig.value)
    && key.Ok? && cert.Some?
    && (roots == [] || exists r :: r in roots && RootCertifies(crypto, r, key.value, cert.value))
  }

  /** The verified view of an accepted directory: its vouched nodes under the carried
      operational key, every other node counted. */
  ghost predicate VerifiedAs(crypto: Crypto, d: SignedDirectory, v: VerifiedDirectory) {
    && DecodeVerifyingKey(crypto, d.operationalPubkeyHex) == Ok(v.operationalKey)
    && v.nodes == Kept(crypto, v.operationalKey, d.nodes)
    && |v.nodes| + v.dropped == |d.nodes|
    && v.generation == d.generation && v.signedAt == d.signedAt && v.expiresAt == d.expiresAt
  }

  /** The guard behind each error: every earlier guard has passed. */
  ghost predicate Refused(crypto: Crypto, inputLen: nat, parsed: Option<SignedDirectory>, servers: seq<string>,
                          e: DirectoryError)
  {
    if inputLen > MAX_VERIFY_INPUT_LEN then e == InputTooLarge
    else if parsed.None? then e == Json
    else
      var d := parsed.value;
      var server := DecodeVerifyingKey(crypto, d.serverPubkeyHex);
      var key := DecodeVerifyingKey(crypto, d.operationalPubkeyHex);
      var sig := DecodeSixtyFour(d.signatureHex);
      if d.version != DIRECTORY_VERSION then e == UnsupportedVersion(d.version)
      else if exists n :: n in d.nodes && !EdgePinOk(n) then e == MalformedEdgeCertPin
      else if !PinAllows(servers, d.serverPubkeyHex) then e == ServerPubkeyMismatch
      else if server.Err? then e == server.error
      else if sig.None? then e == InvalidHex
      else if !crypto.envelopeOk(server.value, Unsigned(d), sig.value) then e == BadEnvelopeSignature
      else if key.Err? then e == key.error
      else if DecodeSixtyFour(d.operationalCertHex).None? then e == InvalidHex
      else e == BadOperationalCert
  }

  method VerifyDirectory(crypto: Crypto, inputLen: nat, parsed: Option<SignedDirectory>,
                         servers: seq<string>, roots: seq<string>)
    returns (r: Result<VerifiedDirectory, DirectoryError>)
    ensures r.Ok? <==> parsed.Some? && Accepted(crypto, inputLen, parsed.value, servers, roots)
    ensures r.Ok? ==> VerifiedAs(crypto, parsed.value, r.value)
    ensures r.Ok? ==>
              && SpellsKey(crypto, parsed.value.operationalPubkeyHex, r.value.operationalKey)
              && (forall n :: n in r.value.nodes <==>
                    n in parsed.value.nodes && Certified(crypto, r.value.operationalKey, n))
              && |r.value.nodes| + r.value.dropped == |parsed.value.nodes|
              && r.value.generation == parsed.value.generation
              && r.value.signedAt == parsed.value.signedAt && r.value.expiresAt == parsed.value.expiresAt
    ensures r.Err? ==> Refused(crypto, inputLen, parsed, servers, r.error)
  {
    if inputLen > MAX_VERIFY_INPUT_LEN {
      return Err(InputTooLarge);
    }
    if parsed.None? {
      return Err(Json);
    }
    var d := parsed.value;
    if d.version != DIRECTORY_VERSION {
      return Err(UnsupportedVersion(d.version));
    }
    for i := 0 to |d.nodes|
      invariant forall k :: 0 <= k < i ==> EdgePinOk(d.nodes[k])
    {
      if !EdgePinOk(d.nodes[i]) {
        return Err(MalformedEdgeCertPin);
      }
    }
    if !PinAllows(servers, d.serverPubkeyHex) {
      return Err(ServerPubkeyMismatch);
    }
    var server := DecodeVerifyingKey(crypto, d.serverPubkeyHex);
    if server.Err? {
      return Err(server.error);
    }
    var sig := DecodeSixtyFour(d.signatureHex);
    if sig.None? {
      return Err(InvalidHex);
    }
    if !crypto.envelopeOk(server.value, Unsigned(d), sig.value) {
      return Err(BadEnvelopeSignature);
    }
    var key := DecodeVerifyingKey(crypto, d.operationalPubkeyHex);
    if key.Err? {
      return Err(key.error);
    }
    var cert := DecodeSixtyFour(d.operationalCertHex);
    if cert.None? {
      return Err(InvalidHex);
    }
    if roots != [] {
      var certified := false;
      for i := 0 to |roots|
        invariant !certified
        invariant forall k :: 0 <= k < i ==> !RootCertifies(crypto, roots[k], key.value, cert.value)
      {
        var root := DecodeVerifyingKey(crypto, roots[i]);
        if root.Ok? && crypto.certOk(root.value, key.value, cert.value) {
          certified := true;
          assert RootCertifies(crypto, roots[i], key.value, cert.value);
          break;
        }
      }
      if !certified {
        return Err(BadOperationalCert);
      }
    }
    var kept: seq<NodeEntry> := [];
    var dropped := 0;
    for i := 0 to |d.nodes|
      invariant kept == Kept(crypto, key.value, d.nodes[..i])
      invariant |kept| + dropped == i
    {
      assert d.nodes[..i + 1][..i] == d.nodes[..i];
      if NodeFullyVouched(crypto, key.value, d.nodes[i]) {
        kept := kept + [d.nodes[i]];
      } else {
        dropped := dropped + 1;
      }
    }
    assert d.nodes[..|d.nodes|] == d.nodes;
    var v := VerifiedDirectory(key.value, kept, d.generation, d.signedAt, d.expiresAt, dropped);
    KeyTextExact(crypto, d.operationalPubkeyHex, key.value);
    ghost var at := VerifiedNodesExact(crypto, d, v);
    r := Ok(v);
  }

  /** The vouched nodes, in order. */
  ghost function Kept(crypto: Crypto, key: Key32, nodes: seq<NodeEntry>): seq<NodeEntry> {
    if nodes == [] then []
    else
      var init, last := nodes[..|nodes| - 1], nodes[|nodes| - 1];
      Kept(crypto, key, init) + (if NodeFullyVouched(crypto, key, last) then [last] else [])
  }

  lemma {:induction false} KeptExact(crypto: Crypto, key: Key32, nodes: seq<NodeEntry>, n: NodeEntry)
    ensures n in Kept(crypto, key, nodes) <==> n in nodes && NodeFullyVouched(crypto, key, n)
  {
    if nodes != [] {
      var init, last := nodes[..|nodes| - 1], nodes[|nodes| - 1];
      KeptExact(crypto, key, init, n);
      assert n in nodes <==> n in init || n == last by {
        assert nodes == init + [last];
      }
    }
  }

  // ---- what acceptance means, on the fields and the signature checks themselves ---------------

  /** Everything the offline operational key vouches for about a node: its relay descriptor;
      its exit descriptor, in the post-quantum context, or with an attested DNS bit, or
      unattested with DNS on; and where it stands, by a 64-byte attestation. */
  ghost predicate Certified(crypto: Crypto, key: Key32, n: NodeEntry) {
    && crypto.relayOk(key, n.relay)
    && (|| crypto.exitPqOk(key, n.exit)
        || crypto.exitDns(key, n.exit) == Some(Attested)
        || (crypto.exitDns(key, n.exit) == Some(Unattested) && !n.exit.dnsDisabled))
    && exists att :: |att| == 64 && HexDecode(n.attestationHex) == Some(att) &&
         crypto.attestationOk(key, n.relay.relayId, n.exit.ed25519, n.asn, n.country, att)
  }

  lemma CertifiedIff(crypto: Crypto, key: Key32, n: NodeEntry)
    ensures NodeFullyVouched(crypto, key, n) <==> Certified(crypto, key, n)
  {
    if NodeFullyVouched(crypto, key, n) {
      var att := DecodeSixtyFour(n.attestationHex).value;
      assert |att| == 64 && HexDecode(n.attestationHex) == Some(att);
    }
  }

  /** An accepted directory keeps exactly the certified nodes of the served one, in their
      order, and counts the others. */
  lemma {:induction false} VerifiedNodesExact(crypto: Crypto, d: SignedDirectory, v: VerifiedDirectory)
    returns (at: seq<nat>)
    requires VerifiedAs(crypto, d, v)
    ensures KeptAt(v.nodes, crypto, v.operationalKey, d.nodes, at) && |v.nodes| + v.dropped == |d.nodes|
    ensures forall n :: n in v.nodes <==> n in d.nodes && Certified(crypto, v.operationalKey, n)
  {
    at := KeptPositions(crypto, v.operationalKey, d.nodes);
    forall n ensures n in v.nodes <==> n in d.nodes && Certified(crypto, v.operationalKey, n) {
      KeptExact(crypto, v.operationalKey, d.nodes, n);
      CertifiedIff(crypto, v.operationalKey, n);
    }
  }

  /** Where the kept nodes stand in the served list, in order. */
  ghost predicate KeptAt(kept: seq<NodeEntry>, crypto: Crypto, key: Key32, nodes: seq<NodeEntry>, at: seq<nat>) {
    && |at| == |kept|
    && (forall t :: 0 <= t < |at| ==> at[t] < |nodes| && kept[t] == nodes[at[t]])
    && (forall t, u :: 0 <= t < u < |at| ==> at[t] < at[u])
    && (forall m: nat :: m < |nodes| ==> (m in at <==> Certified(crypto, key, nodes[m])))
  }

  lemma {:induction false} KeptPositions(crypto: Crypto, key: Key32, nodes: seq<NodeEntry>) returns (at: seq<nat>)
    ensures KeptAt(Kept(crypto, key, nodes), crypto, key, nodes, at)
  {
    at := [];
    if nodes != [] {
      var init, last := nodes[..|nodes| - 1], nodes[|nodes| - 1];
      var before := KeptPositions(crypto, key, init);
      CertifiedIff(crypto, key, last);
      assert nodes == init + [last];
      at := OneMoreKept(Kept(crypto, key, init), crypto, key, init, last, before);
    }
  }

  lemma {:induction false} OneMoreKept(kept: seq<NodeEntry>, crypto: Crypto, key: Key32, init: seq<NodeEntry>,
                                       last: NodeEntry, before: seq<nat>) returns (at: seq<nat>)
    requires KeptAt(kept, crypto, key, init, before)
    ensures KeptAt(kept + (if Certified(crypto, key, last) then [last] else []), crypto, key, init + [last], at)
  {
    var n, nodes, certified := |init|, init + [last], Certified(crypto, key, last);
    at := before + (if certified then [n] else []);
    forall m: nat | m < |nodes| ensures m in at <==> Certified(crypto, key, nodes[m]) {
      assert m in at <==> m in before || (certified && m == n);
      if m < n {
        assert nodes[m] == init[m];
      } else {
        assert m !in before;
      }
    }
  }

  /** A text spells a public key: 32 bytes on the curve. */
  ghost predicate SpellsKey(crypto: Crypto, hex: string, key: Key32) {
    HexDecode(hex) == Some(key) && crypto.onCurve(key)
  }

  lemma KeyTextExact(crypto: Crypto, hex: string, key: Key32)
    ensures DecodeVerifyingKey(crypto, hex) == Ok(key) <==> SpellsKey(crypto, hex, key)
    ensures DecodeVerifyingKey(crypto, hex) == Err(InvalidHex) <==>
            HexDecode(hex).None? || |HexDecode(hex).value| != 32
    ensures DecodeVerifyingKey(crypto, hex) == Err(PubkeyNotOnCurve) <==>
            HexDecode(hex).Some? && |HexDecode(hex).value| == 32 && !crypto.onCurve(HexDecode(hex).value)
    ensures DecodeVerifyingKey(crypto, hex).Err? ==>
            DecodeVerifyingKey(crypto, hex).error in {InvalidHex, PubkeyNotOnCurve}
  {
  }

  /** The four signed parts of the envelope: the server key and its signature over everything
      but the signature, the operational key, and its certificate by a pinned root, if any is
      pinned. */
  ghost predicate Sealed(crypto: Crypto, d: SignedDirectory, roots: seq<string>, server: Key32, sig: seq<byte>,
                         key: Key32, cert: seq<byte>)
  {
    && SpellsKey(crypto, d.serverPubkeyHex, server)
    && |sig| == 64 && HexDecode(d.signatureHex) == Some(sig)
    && crypto.envelopeOk(server, d.(signatureHex := ""), sig)
    && SpellsKey(crypto, d.operationalPubkeyHex, key)
    && |cert| == 64 && HexDecode(d.operationalCertHex) == Some(cert)
    && (roots == [] || exists r, root :: r in roots && SpellsKey(crypto, r, root) && crypto.certOk(root, key, cert))
  }

  /** A pin is absent, or 64 hex digits. */
  predicate WellFormedPin(pin: Option<string>) {
    pin.None? ||
    (|pin.value| == 64 && forall c :: c in pin.value ==> '0' <= c <= '9' || 'a' <= c <= 'f' || 'A' <= c <= 'F')
  }

  /** Acceptance in full: at most 4 MiB, version 2, well-formed edge pins, a pinned server key
      or none pinned, and the seal. */
  lemma AcceptedExact(crypto: Crypto, inputLen: nat, d: SignedDirectory, servers: seq<string>, roots: seq<string>)
    ensures Accepted(crypto, inputLen, d, servers, roots) <==>
            && inputLen <= 4_194_304 && d.version == 2
            && (forall n :: n in d.nodes ==> WellFormedPin(n.edgeCertSha256))
            && (servers == [] || exists p :: p in servers && EqIgnoreCase(p, d.serverPubkeyHex))
            && exists server, sig, key, cert :: Sealed(crypto, d, roots, server, sig, key, cert)
  {
    assert forall n :: n in d.nodes ==> (EdgePinOk(n) <==> WellFormedPin(n.edgeCertSha256));
    if Accepted(crypto, inputLen, d, servers, roots) {
      SealedWhenAccepted(crypto, inputLen, d, servers, roots);
    }
    forall server, sig, key, cert | Sealed(crypto, d, roots, server, sig, key, cert)
      ensures SealChecks(crypto, d, roots)
    {
      ChecksWhenSealed(crypto, d, roots, server, sig, key, cert);
    }
  }

  ghost predicate SealChecks(crypto: Crypto, d: SignedDirectory, roots: seq<string>) {
    var server := DecodeVerifyingKey(crypto, d.serverPubkeyHex);
    var key := DecodeVerifyingKey(crypto, d.operationalPubkeyHex);
    var cert := DecodeSixtyFour(d.operationalCertHex);
    var sig := DecodeSixtyFour(d.signatureHex);
    && server.Ok? && sig.Some? && crypto.envelopeOk(server.value, Unsigned(d), sig.value)
    && key.Ok? && cert.Some?
    && (roots == [] || exists r :: r in roots && RootCertifies(crypto, r, key.value, cert.value))
  }

  lemma SealedWhenAccepted(crypto: Crypto, inputLen: nat, d: SignedDirectory, servers: seq<string>, roots: seq<string>)
    requires Accepted(crypto, inputLen, d, servers, roots)
    ensures exists server, sig, key, cert :: Sealed(crypto, d, roots, server, sig, key, cert)
  {
    var server := DecodeVerifyingKey(crypto, d.serverPubkeyHex).value;
    var key := DecodeVerifyingKey(crypto, d.operationalPubkeyHex).value;
    var cert := DecodeSixtyFour(d.operationalCertHex).value;
    var sig := DecodeSixtyFour(d.signatureHex).value;
    KeyTextExact(crypto, d.serverPubkeyHex, server);
    KeyTextExact(crypto, d.operationalPubkeyHex, key);
    if roots != [] {
      var r :| r in roots && RootCertifies(crypto, r, key, cert);
      KeyTextExact(crypto, r, DecodeVerifyingKey(crypto, r).value);
    }
    assert Sealed(crypto, d, roots, server, sig, key, cert);
  }

  lemma ChecksWhenSealed(crypto: Crypto, d: SignedDirectory, roots: seq<string>, server: Key32, sig: seq<byte>,
                         key: Key32, cert: seq<byte>)
    requires Sealed(crypto, d, roots, server, sig, key, cert)
    ensures SealChecks(crypto, d, roots)
  {
    KeyTextExact(crypto, d.serverPubkeyHex, server);
    KeyTextExact(crypto, d.operationalPubkeyHex, key);
    if roots != [] {
      var r, root :| r in roots && SpellsKey(crypto, r, root) && crypto.certOk(root, key, cert);
      KeyTextExact(crypto, r, root);
      assert RootCertifies(crypto, r, key, cert);
    }
  }

  /** The exit descriptor checks do not read the exit endpoint: it is outside the
      signed payload. An assumption about the signature scheme, not a theorem. */
  ghost predicate EndpointUnsigned(crypto: Crypto) {
    forall key, exit: ExitDescriptor, at {:trigger crypto.exitPqOk(key, exit.(endpoint := at))}
                                         {:trigger crypto.exitDns(key, exit.(endpoint := at))} ::
      && crypto.exitPqOk(key, exit.(endpoint := at)) == crypto.exitPqOk(key, exit)
      && crypto.exitDns(key, exit.(endpoint := at)) == crypto.exitDns(key, exit)
  }

  /** Redacting the exit endpoints leaves every per-node verdict as it was: the
      redacted fleet keeps exactly the redacted vouched nodes. */
  lemma {:induction false} RedactionPreservesVouching(crypto: Crypto, key: Key32, nodes: seq<NodeEntry>)
    requires EndpointUnsigned(crypto)
    ensures Kept(crypto, key, RedactExitEndpoints(nodes)) == RedactExitEndpoints(Kept(crypto, key, nodes))
  {
    if nodes != [] {
      var init, last := nodes[..|nodes| - 1], nodes[|nodes| - 1];
      var redacted := RedactExitEndpoints(nodes);
      assert redacted[..|nodes| - 1] == RedactExitEndpoints(init);
      RedactionPreservesVouching(crypto, key, init);
      var last' := redacted[|nodes| - 1];
      assert last' == last.(exit := last.exit.(endpoint := None));
      assert crypto.exitPqOk(key, last.exit.(endpoint := None)) == crypto.exitPqOk(key, last.exit);
      assert NodeFullyVouched(crypto, key, last') == NodeFullyVouched(crypto, key, last);
    }
  }
}
