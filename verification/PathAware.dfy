/** The two path-aware selections and the weight-only pick they fall back to, as the
    methods that sort and as the functions the laws are stated on. */
module PathAware {
  import opened Wrappers
  import opened Machine
  import opened Text
  import opened Order
  import opened Directory
  import opened Rtt
  import opened Ranking
  import opened PathScore

  datatype LegQuality = LegQuality(exitId: string, rttMs: u32, degraded: bool, sampledAt: u64)

  datatype EntryPathQuality = EntryPathQuality(relayId: string, legs: seq<LegQuality>)

  /** The unsigned path-quality advisory. */
  datatype Advisory = Advisory(version: u32, generatedAt: u64, entries: seq<EntryPathQuality>)

  /** The first measured entry whose text names `relayId`. */
  function FindEntry(entries: seq<EntryPathQuality>, relayId: Id): Option<EntryPathQuality> {
    if entries == [] then None
    else if EqIgnoreCase(entries[0].relayId, HexEncode(relayId)) then Some(entries[0])
    else FindEntry(entries[1..], relayId)
  }

  function FindLeg(legs: seq<LegQuality>, exitId: Id): Option<LegQuality> {
    if legs == [] then None
    else if EqIgnoreCase(legs[0].exitId, HexEncode(exitId)) then Some(legs[0])
    else FindLeg(legs[1..], exitId)
  }

  function Leg(advisory: Advisory, relayId: Id, exitId: Id): Option<LegQuality> {
    match FindEntry(advisory.entries, relayId)
    case None => None
    case Some(e) => FindLeg(e.legs, exitId)
  }

  /** What a selection knows besides the directory and the client's own RTTs. */
  datatype Signal = Signal(advisory: Option<Advisory>, now: u64, params: PathAwareParams)

  function FreshLeg(sig: Signal, relayId: Id, exitId: Id): LegSample {
    if sig.advisory.None? then None
    else
      match Leg(sig.advisory.value, relayId, exitId)
      case None => None
      case Some(l) =>
        if SaturatingSub(sig.now, l.sampledAt) <= sig.params.staleAfterSecs then Some((l.rttMs, l.degraded)) else None
  }

  function LegDegraded(leg: LegSample): bool {
    leg.Some? && leg.value.1
  }

  /** Entry `i` is the first whose text decodes to the relay id. */
  ghost predicate EntryNamed(entries: seq<EntryPathQuality>, relayId: Id, i: nat) {
    && i < |entries| && HexDecode(entries[i].relayId) == Some(relayId)
    && forall m :: 0 <= m < i ==> HexDecode(entries[m].relayId) != Some(relayId)
  }

  /** Leg `k` is the first whose text decodes to the exit id. */
  ghost predicate LegNamed(legs: seq<LegQuality>, exitId: Id, k: nat) {
    && k < |legs| && HexDecode(legs[k].exitId) == Some(exitId)
    && forall m :: 0 <= m < k ==> HexDecode(legs[m].exitId) != Some(exitId)
  }

  predicate NoEntryDecodes(entries: seq<EntryPathQuality>, relayId: Id) {
    forall m :: 0 <= m < |entries| ==> HexDecode(entries[m].relayId) != Some(relayId)
  }

  predicate NoLegDecodes(legs: seq<LegQuality>, exitId: Id) {
    forall m :: 0 <= m < |legs| ==> HexDecode(legs[m].exitId) != Some(exitId)
  }

  /** The lookup finds the first decoding text; later duplicates are never read. */
  lemma {:induction false} FindEntryFirst(entries: seq<EntryPathQuality>, relayId: Id, i: nat)
    requires EntryNamed(entries, relayId, i)
    ensures FindEntry(entries, relayId) == Some(entries[i])
  {
    HexMatchIsDecode(entries[0].relayId, relayId);
    if i > 0 {
      FindEntryFirst(entries[1..], relayId, i - 1);
    }
  }

  lemma {:induction false} FindLegFirst(legs: seq<LegQuality>, exitId: Id, k: nat)
    requires LegNamed(legs, exitId, k)
    ensures FindLeg(legs, exitId) == Some(legs[k])
  {
    HexMatchIsDecode(legs[0].exitId, exitId);
    if k > 0 {
      FindLegFirst(legs[1..], exitId, k - 1);
    }
  }

  lemma {:induction false} FindEntryNoneIff(entries: seq<EntryPathQuality>, relayId: Id)
    ensures FindEntry(entries, relayId) == None <==> NoEntryDecodes(entries, relayId)
    ensures FindEntry(entries, relayId) == None || exists i: nat :: EntryNamed(entries, relayId, i)
  {
    if entries != [] {
      HexMatchIsDecode(entries[0].relayId, relayId);
      if HexDecode(entries[0].relayId) == Some(relayId) {
        assert EntryNamed(entries, relayId, 0);
      } else {
        FindEntryNoneIff(entries[1..], relayId);
        assert forall i: nat :: EntryNamed(entries[1..], relayId, i) ==> EntryNamed(entries, relayId, i + 1);
      }
    }
  }

  lemma {:induction false} FindLegNoneIff(legs: seq<LegQuality>, exitId: Id)
    ensures FindLeg(legs, exitId) == None <==> NoLegDecodes(legs, exitId)
    ensures FindLeg(legs, exitId) == None || exists k: nat :: LegNamed(legs, exitId, k)
  {
    if legs != [] {
      HexMatchIsDecode(legs[0].exitId, exitId);
      if HexDecode(legs[0].exitId) == Some(exitId) {
        assert LegNamed(legs, exitId, 0);
      } else {
        FindLegNoneIff(legs[1..], exitId);
        assert forall k: nat :: LegNamed(legs[1..], exitId, k) ==> LegNamed(legs, exitId, k + 1);
      }
    }
  }

  /** The sample still counts: `now <= sampledAt + staleAfterSecs`. */
  predicate Fresh(sig: Signal, l: LegQuality) {
    sig.now <= l.sampledAt + sig.params.staleAfterSecs
  }

  /** A selection reads the first leg that decodes to the exit id, of the first entry that
      decodes to the relay id, while it is fresh. */
  lemma FreshLegExact(sig: Signal, relayId: Id, exitId: Id, i: nat, k: nat)
    requires sig.advisory.Some? && EntryNamed(sig.advisory.value.entries, relayId, i)
    requires LegNamed(sig.advisory.value.entries[i].legs, exitId, k)
    ensures var l := sig.advisory.value.entries[i].legs[k];
            FreshLeg(sig, relayId, exitId) == if Fresh(sig, l) then Some((l.rttMs, l.degraded)) else None
  {
    FindEntryFirst(sig.advisory.value.entries, relayId, i);
    FindLegFirst(sig.advisory.value.entries[i].legs, exitId, k);
  }

  /** A selection has no signal on a leg exactly when there is no advisory, none of its
      entries decodes to the relay id, none of the first such entry's legs decodes to the
      exit id, or the first such leg is stale. */
  lemma {:induction false} FreshLegNoneIff(sig: Signal, relayId: Id, exitId: Id)
    ensures FreshLeg(sig, relayId, exitId) == None <==>
            sig.advisory.None? ||
            var entries := sig.advisory.value.entries;
            || NoEntryDecodes(entries, relayId)
            || (exists i: nat :: EntryNamed(entries, relayId, i) && NoLegDecodes(entries[i].legs, exitId))
            || (exists i: nat, k: nat :: EntryNamed(entries, relayId, i) && LegNamed(entries[i].legs, exitId, k) &&
                                         !Fresh(sig, entries[i].legs[k]))
  {
    if sig.advisory.Some? {
      var entries := sig.advisory.value.entries;
      FindEntryNoneIff(entries, relayId);
      forall i: nat | EntryNamed(entries, relayId, i)
        ensures FindEntry(entries, relayId) == Some(entries[i])
        ensures FindLeg(entries[i].legs, exitId) == None <==> NoLegDecodes(entries[i].legs, exitId)
        ensures FindLeg(entries[i].legs, exitId) == None || exists k: nat :: LegNamed(entries[i].legs, exitId, k)
      {
        FindEntryFirst(entries, relayId, i);
        FindLegNoneIff(entries[i].legs, exitId);
      }
      forall i: nat, k: nat | EntryNamed(entries, relayId, i) && LegNamed(entries[i].legs, exitId, k)
        ensures (FreshLeg(sig, relayId, exitId) == None) == !Fresh(sig, entries[i].legs[k])
      {
        FreshLegExact(sig, relayId, exitId, i, k);
      }
    }
  }

  // ---- client RTT adaptors: one keying for both views ---------------------------

  type NodeRtt = NodeEntry -> Option<u32>
  type EntryRtt = VerifiedEntry -> Option<u32>

  function NodeRttFrom(samples: Samples, now: u64, ttl: u64): NodeRtt {
    (n: NodeEntry) => FreshRtt(samples, n.relay.ed25519, now, ttl)
  }

  function EntryRttFrom(samples: Samples, now: u64, ttl: u64): EntryRtt {
    (e: VerifiedEntry) => FreshRtt(samples, e.relayEd25519, now, ttl)
  }

  /** Both adaptors read the store under the Ed25519 key of the relay the client dials. */
  lemma AdaptorsMean(samples: Samples, now: u64, ttl: u64, n: NodeEntry, e: VerifiedEntry, v: u32)
    ensures NodeRttFrom(samples, now, ttl)(n) == Some(v) <==>
            && n.relay.ed25519 in samples && samples[n.relay.ed25519].rttMs == v
            && 0 < ttl && now < samples[n.relay.ed25519].measuredAt + ttl
    ensures EntryRttFrom(samples, now, ttl)(e) == Some(v) <==>
            && e.relayEd25519 in samples && samples[e.relayEd25519].rttMs == v
            && 0 < ttl && now < samples[e.relayEd25519].measuredAt + ttl
  {
  }

  // ---- candidates ------------------------------------------------------------------

  type Pair = (nat, nat)

  predicate InRange(dir: VerifiedDirectory, pairs: seq<Pair>) {
    forall p :: p in pairs ==> p.0 < |dir.nodes| && p.1 < |dir.nodes|
  }

  /** The ids of a circuit: entry relay id, then exit id. */
  function CircuitIds(dir: VerifiedDirectory, p: Pair): (Id, Id)
    requires p.0 < |dir.nodes| && p.1 < |dir.nodes|
  {
    (dir.nodes[p.0].relay.relayId, dir.nodes[p.1].exit.exitId)
  }

  function Joined(ids: (Id, Id)): seq<byte> {
    ids.0 + ids.1
  }

  /** The tie-break key is the two ids end to end; comparing keys is comparing entry
      ids, then exit ids. */
  lemma TieBreakIsThenWith(a: (Id, Id), b: (Id, Id))
    ensures CmpBytes(Joined(a), Joined(b)) == CmpBytes(a.0, b.0).Then(CmpBytes(a.1, b.1))
    ensures Joined(a) == Joined(b) <==> a == b
  {
    BytesConcat(a.0, b.0, a.1, b.1);
    if Joined(a) == Joined(b) {
      assert a.0 == Joined(a)[..16] && b.0 == Joined(b)[..16];
      assert a.1 == Joined(a)[16..] && b.1 == Joined(b)[16..];
    }
  }

  function CircuitWeight(e: NodeEntry, x: NodeEntry): u64 {
    WeightProduct(e.weight, x.weight)
  }

  function WeightCandidate(dir: VerifiedDirectory, p: Pair): Candidate<Pair>
    requires p.0 < |dir.nodes| && p.1 < |dir.nodes|
  {
    Candidate(p, CircuitWeight(dir.nodes[p.0], dir.nodes[p.1]), Joined(CircuitIds(dir, p)), false)
  }

  /** The score, identifier and verdict of an (entry, exit) node pair. */
  function NodePairCandidate<T>(item: T, rtt: NodeRtt, sig: Signal, e: NodeEntry, x: NodeEntry): Candidate<T> {
    var leg := FreshLeg(sig, e.relay.relayId, x.exit.exitId);
    Candidate(item, Score(CircuitWeight(e, x), rtt(e).GetOr(sig.params.neutralRttMs), leg, sig.params),
              e.relay.relayId + x.exit.exitId, LegDegraded(leg))
  }

  function CircuitCandidate(dir: VerifiedDirectory, rtt: NodeRtt, sig: Signal, p: Pair): Candidate<Pair>
    requires p.0 < |dir.nodes| && p.1 < |dir.nodes|
  {
    NodePairCandidate(p, rtt, sig, dir.nodes[p.0], dir.nodes[p.1])
  }

  function ByWeight(dir: VerifiedDirectory, pairs: seq<Pair>): seq<Candidate<Pair>>
    requires InRange(dir, pairs)
  {
    seq(|pairs|, k requires 0 <= k < |pairs| => WeightCandidate(dir, pairs[k]))
  }

  function Ranked(dir: VerifiedDirectory, pairs: seq<Pair>, rtt: NodeRtt, sig: Signal): seq<Candidate<Pair>>
    requires InRange(dir, pairs)
  {
    seq(|pairs|, k requires 0 <= k < |pairs| => CircuitCandidate(dir, rtt, sig, pairs[k]))
  }

  // ---- the pair view -----------------------------------------------------------------

  function PickByWeight(dir: VerifiedDirectory, pairs: seq<Pair>): Option<Pair>
    requires InRange(dir, pairs)
  {
    if pairs == [] then None else Some(Best(ByWeight(dir, pairs)).item)
  }

  function SelectCircuit(dir: VerifiedDirectory, pairs: seq<Pair>, rtt: NodeRtt, sig: Signal,
                         prev: Option<(Id, Id)>): Option<Pair>
    requires InRange(dir, pairs)
  {
    if pairs == [] then None
    else
      var ranked := Ranked(dir, pairs, rtt, sig);
      var incumbent := if prev.None? then None else FindTie(ranked, Joined(prev.value));
      Some(Choose(ranked, incumbent, sig.params.switchMarginPct).item)
  }

  method PickCircuitByWeight(dir: VerifiedDirectory, pairs: seq<Pair>) returns (r: Option<Pair>)
    requires InRange(dir, pairs)
    ensures r == PickByWeight(dir, pairs)
  {
    var ranked := ByWeight(dir, pairs);
    SortedRanking(ranked);
    ranked := StableSort(ranked, RankCmp);
    r := if ranked == [] then None else Some(ranked[0].item);
  }

  method SelectCircuitPathAware(dir: VerifiedDirectory, pairs: seq<Pair>, rtt: NodeRtt, sig: Signal,
                                prev: Option<(Id, Id)>)
    returns (r: Option<Pair>)
    requires InRange(dir, pairs)
    ensures r == SelectCircuit(dir, pairs, rtt, sig, prev)
  {
    var ranked := Ranked(dir, pairs, rtt, sig);
    SortedRanking(ranked);
    var sorted := StableSort(ranked, RankCmp);
    if sorted == [] {
      return None;
    }
    var best := sorted[0];
    if prev.None? {
      return Some(best.item);
    }
    var incumbent := FindCircuit(dir, pairs, rtt, sig, prev.value);
    if incumbent.None? {
      return Some(best.item);
    }
    var (i, j) := incumbent.value;
    var leg := FreshLeg(sig, dir.nodes[i].relay.relayId, dir.nodes[j].exit.exitId);
    if LegDegraded(leg) {
      return Some(best.item);
    }
    var score := Score(CircuitWeight(dir.nodes[i], dir.nodes[j]),
                       rtt(dir.nodes[i]).GetOr(sig.params.neutralRttMs), leg, sig.params);
    if best.score > ChallengerBar(score, sig.params.switchMarginPct) {
      return Some(best.item);
    } else {
      return Some((i, j));
    }
  }

  /** The first offered pair carrying the given ids. */
  method FindCircuit(dir: VerifiedDirectory, pairs: seq<Pair>, rtt: NodeRtt, sig: Signal, ids: (Id, Id))
    returns (r: Option<Pair>)
    requires InRange(dir, pairs)
    ensures var found := FindTie(Ranked(dir, pairs, rtt, sig), Joined(ids));
            r == if found.None? then None else Some(found.value.item)
    ensures r.Some? ==> r.value in pairs &&
                        FindTie(Ranked(dir, pairs, rtt, sig), Joined(ids)) ==
                        Some(CircuitCandidate(dir, rtt, sig, r.value))
  {
    ghost var ranked := Ranked(dir, pairs, rtt, sig);
    assert ranked[0..] == ranked;
    for k := 0 to |pairs|
      invariant FindTie(ranked, Joined(ids)) == FindTie(ranked[k..], Joined(ids))
    {
      var (i, j) := pairs[k];
      TieBreakIsThenWith(CircuitIds(dir, pairs[k]), ids);
      assert ranked[k..][1..] == ranked[k + 1..];
      if dir.nodes[i].relay.relayId == ids.0 && dir.nodes[j].exit.exitId == ids.1 {
        return Some(pairs[k]);
      }
    }
    r := None;
  }

  // ---- the flat entry view --------------------------------------------------------------

  function Permitted(entries: seq<VerifiedEntry>, exit: VerifiedExit, policy: CircuitPolicy): seq<VerifiedEntry> {
    if entries == [] then []
    else (if policy.Permits(entries[0], exit) then [entries[0]] else []) + Permitted(entries[1..], exit, policy)
  }

  lemma {:induction false} PermittedExact(entries: seq<VerifiedEntry>, exit: VerifiedExit, policy: CircuitPolicy)
    ensures forall e :: e in Permitted(entries, exit, policy) <==> e in entries && policy.Permits(e, exit)
  {
    if entries != [] {
      PermittedExact(entries[1..], exit, policy);
      forall e ensures e in Permitted(entries, exit, policy) <==> e in entries && policy.Permits(e, exit) {
        assert e in entries <==> e == entries[0] || e in entries[1..];
      }
    }
  }

  function EntryCandidate(exit: VerifiedExit, rtt: EntryRtt, sig: Signal, e: VerifiedEntry): Candidate<VerifiedEntry> {
    var leg := FreshLeg(sig, e.exitId, exit.exitId);
    Candidate(e, Score(WeightProduct(e.weight, exit.weight), rtt(e).GetOr(sig.params.neutralRttMs), leg, sig.params),
              e.exitId, LegDegraded(leg))
  }

  function RankedEntries(entries: seq<VerifiedEntry>, exit: VerifiedExit, policy: CircuitPolicy,
                         rtt: EntryRtt, sig: Signal): seq<Candidate<VerifiedEntry>>
  {
    var permitted := Permitted(entries, exit, policy);
    seq(|permitted|, k requires 0 <= k < |permitted| => EntryCandidate(exit, rtt, sig, permitted[k]))
  }

  /** The incumbent is looked up in the sorted ranking, as the code does. */
  function SelectEntry(entries: seq<VerifiedEntry>, exit: VerifiedExit, policy: CircuitPolicy,
                       rtt: EntryRtt, sig: Signal, prev: Option<Id>): Option<VerifiedEntry>
  {
    var ranked := RankedEntries(entries, exit, policy, rtt, sig);
    if ranked == [] then None
    else
      SortedRanking(ranked);
      var incumbent := if prev.None? then None else FindTie(StableSort(ranked, RankCmp), prev.value);
      Some(Choose(ranked, incumbent, sig.params.switchMarginPct).item)
  }

  method SelectEntryPathAware(entries: seq<VerifiedEntry>, exit: VerifiedExit, policy: CircuitPolicy,
                              rtt: EntryRtt, sig: Signal, prev: Option<Id>)
    returns (r: Option<VerifiedEntry>)
    ensures r == SelectEntry(entries, exit, policy, rtt, sig, prev)
  {
    var ranked := RankedEntries(entries, exit, policy, rtt, sig);
    SortedRanking(ranked);
    ranked := StableSort(ranked, RankCmp);
    if ranked == [] {
      return None;
    }
    var best := ranked[0];
    if prev.None? {
      return Some(best.item);
    }
    var incumbent := FindTie(ranked, prev.value);
    if incumbent.None? || incumbent.value.degraded {
      return Some(best.item);
    }
    if best.score > ChallengerBar(incumbent.value.score, sig.params.switchMarginPct) {
      return Some(best.item);
    } else {
      return Some(incumbent.value.item);
    }
  }
}
