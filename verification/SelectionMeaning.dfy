/** The selections in plain terms: on node weights and ids, the advisory's own fields and
    integer arithmetic, without the functions that compute them. */
module SelectionMeaning {
  import opened Wrappers
  import opened Machine
  import opened Text
  import opened Order
  import opened Directory
  import opened Ranking
  import opened PathScore
  import opened PathAware
  import opened PathAwareLaws

  // ---- the arithmetic -------------------------------------------------------------------

  /** Both weights raised to at least 1, their product capped at 2^64 - 1. */
  function Product(a: u64, b: u64): nat {
    var p := (if a == 0 then 1 else a) * (if b == 0 then 1 else b);
    if p > 0xFFFF_FFFF_FFFF_FFFF then 0xFFFF_FFFF_FFFF_FFFF else p
  }

  function Floor(a: nat, b: nat): nat
    requires b > 0
  {
    a / b
  }

  /** The floored quotient of the score, divided once more on a degraded leg. */
  function ScoreOf(product: nat, client: Option<u32>, leg: Option<LegQuality>, params: PathAwareParams): nat {
    var k := if params.halfScoreRttMs == 0 then 1 else params.halfScoreRttMs;
    var clientMs := if client.Some? then client.value else params.neutralRttMs;
    var legMs := if leg.Some? then leg.value.rttMs else params.neutralRttMs;
    var s := Floor(product * (1_000_000 * k), k + (clientMs + legMs));
    if leg.Some? && leg.value.degraded
    then Floor(s, if params.degradedPenaltyDiv == 0 then 1 else params.degradedPenaltyDiv)
    else s
  }

  /** What a challenger must exceed: the u64 addition wraps, the u128 product saturates. */
  function BarOver(score: nat, margin: u64): nat {
    var product := score * ((100 + margin) % 0x1_0000_0000_0000_0000);
    (if product > 0xFFFF_FFFF_FFFF_FFFF_FFFF_FFFF_FFFF_FFFF then 0xFFFF_FFFF_FFFF_FFFF_FFFF_FFFF_FFFF_FFFF
     else product) / 100
  }

  /** Higher score, then the smaller relay id, then the smaller exit id, then earlier. */
  ghost predicate Ahead(s: nat, ids: (Id, Id), k: nat, s': nat, ids': (Id, Id), k': nat) {
    || s' < s
    || (s' == s && (|| BytesBefore(ids.0, ids'.0)
                    || (ids.0 == ids'.0 && (BytesBefore(ids.1, ids'.1) || (ids.1 == ids'.1 && k <= k')))))
  }

  lemma BarMeans(score: u128, margin: u64)
    ensures ChallengerBar(score, margin) == BarOver(score, margin)
  {
  }

  lemma {:induction false} ScoreMeans(a: u64, b: u64, client: Option<u32>, leg: Option<LegQuality>,
                                      params: PathAwareParams)
    ensures var sample := if leg.None? then None else Some((leg.value.rttMs, leg.value.degraded));
            Score(WeightProduct(a, b), client.GetOr(params.neutralRttMs), sample, params) ==
            ScoreOf(Product(a, b), client, leg, params)
    ensures ScoreOf(Product(a, b), client, leg, params) < SCORE_LIMIT
  {
    var sample := if leg.None? then None else Some((leg.value.rttMs, leg.value.degraded));
    ScoreExact(WeightProduct(a, b), client.GetOr(params.neutralRttMs), sample, params);
    assert WeightProduct(a, b) == Product(a, b);
  }

  // ---- the advisory ---------------------------------------------------------------------

  /** `leg` is what the advisory says now of the way from `relayId` to `exitId`: its first leg
      that names the exit, of its first entry that names the relay, while it is not stale. */
  ghost predicate Says(sig: Signal, relayId: Id, exitId: Id, leg: Option<LegQuality>) {
    match leg
    case Some(l) =>
      && sig.advisory.Some?
      && (exists i: nat, k: nat :: EntryNamed(sig.advisory.value.entries, relayId, i) &&
            LegNamed(sig.advisory.value.entries[i].legs, exitId, k) && sig.advisory.value.entries[i].legs[k] == l)
      && sig.now <= l.sampledAt + sig.params.staleAfterSecs
    case None =>
      || sig.advisory.None?
      || forall i: nat, k: nat ::
           EntryNamed(sig.advisory.value.entries, relayId, i) &&
           LegNamed(sig.advisory.value.entries[i].legs, exitId, k) ==>
             sig.now > sig.advisory.value.entries[i].legs[k].sampledAt + sig.params.staleAfterSecs
  }

  lemma {:induction false} SaysMeans(sig: Signal, relayId: Id, exitId: Id, leg: Option<LegQuality>)
    requires Says(sig, relayId, exitId, leg)
    ensures FreshLeg(sig, relayId, exitId) ==
            if leg.None? then None else Some((leg.value.rttMs, leg.value.degraded))
  {
    if leg.Some? {
      var entries := sig.advisory.value.entries;
      var i: nat, k: nat :| EntryNamed(entries, relayId, i) && LegNamed(entries[i].legs, exitId, k) &&
                            entries[i].legs[k] == leg.value;
      FreshLegExact(sig, relayId, exitId, i, k);
    } else if FreshLeg(sig, relayId, exitId) != None {
      var i, k := NamedLeg(sig, relayId, exitId);
      FreshLegExact(sig, relayId, exitId, i, k);
    }
  }

  /** A selection with a signal on a leg has found it in the advisory. */
  lemma {:induction false} NamedLeg(sig: Signal, relayId: Id, exitId: Id)
    returns (i: nat, k: nat)
    requires FreshLeg(sig, relayId, exitId) != None
    ensures sig.advisory.Some? && EntryNamed(sig.advisory.value.entries, relayId, i)
    ensures LegNamed(sig.advisory.value.entries[i].legs, exitId, k)
  {
    var entries := sig.advisory.value.entries;
    FindEntryNoneIff(entries, relayId);
    i :| EntryNamed(entries, relayId, i);
    FindEntryFirst(entries, relayId, i);
    FindLegNoneIff(entries[i].legs, exitId);
    k :| LegNamed(entries[i].legs, exitId, k);
  }

  /** The advisory always says something, if only that it knows nothing. */
  lemma {:induction false} SaysOne(sig: Signal, relayId: Id, exitId: Id)
    returns (leg: Option<LegQuality>)
    ensures Says(sig, relayId, exitId, leg)
  {
    leg := None;
    if FreshLeg(sig, relayId, exitId) != None {
      var i, k := NamedLeg(sig, relayId, exitId);
      FreshLegExact(sig, relayId, exitId, i, k);
      leg := Some(sig.advisory.value.entries[i].legs[k]);
    } else if sig.advisory.Some? {
      var entries := sig.advisory.value.entries;
      forall i: nat, k: nat | EntryNamed(entries, relayId, i) && LegNamed(entries[i].legs, exitId, k)
        ensures sig.now > entries[i].legs[k].sampledAt + sig.params.staleAfterSecs
      {
        FreshLegExact(sig, relayId, exitId, i, k);
      }
    }
  }

  // ---- the pair view ----------------------------------------------------------------------

  lemma AheadIff(t: seq<Candidate<Pair>>, k: nat, m: nat, a: (Id, Id), b: (Id, Id))
    requires k < |t| && m < |t| && t[k].tie == Joined(a) && t[m].tie == Joined(b)
    ensures Precedes(t, k, m) <==> Ahead(t[k].score, a, k, t[m].score, b, m)
  {
    TieBreakIsThenWith(a, b);
    BytesBeforeIff(a.0, b.0);
    BytesBeforeIff(a.1, b.1);
    LexAntisymmetric(CmpByte, a.0, b.0);
  }

  /** The pair at `k` comes before the pair at `m` by weight alone. */
  ghost predicate HeavierFirst(dir: VerifiedDirectory, pairs: seq<Pair>, k: nat, m: nat)
    requires InRange(dir, pairs) && k < |pairs| && m < |pairs|
  {
    var ((i, j), (i', j')) := (pairs[k], pairs[m]);
    Ahead(Product(dir.nodes[i].weight, dir.nodes[j].weight),
          (dir.nodes[i].relay.relayId, dir.nodes[j].exit.exitId), k,
          Product(dir.nodes[i'].weight, dir.nodes[j'].weight),
          (dir.nodes[i'].relay.relayId, dir.nodes[j'].exit.exitId), m)
  }

  /** The weight pick is the pair of the greatest capped weight product; of those, the one
      with the smallest relay id, then exit id, then position. */
  lemma {:induction false} WeightPickMeans(dir: VerifiedDirectory, pairs: seq<Pair>)
    returns (k: nat)
    requires InRange(dir, pairs) && pairs != []
    ensures k < |pairs| && PickByWeight(dir, pairs) == Some(pairs[k])
    ensures forall m :: 0 <= m < |pairs| ==> HeavierFirst(dir, pairs, k, m)
  {
    var t := ByWeight(dir, pairs);
    k := FirstMin(t, RankCmp);
    forall m | 0 <= m < |pairs| ensures HeavierFirst(dir, pairs, k, m) {
      BestPosition(t, m);
      AheadIff(t, k, m, CircuitIds(dir, pairs[k]), CircuitIds(dir, pairs[m]));
    }
  }

  /** What the advisory says of each offered pair. */
  ghost predicate SaysOfPairs(dir: VerifiedDirectory, pairs: seq<Pair>, sig: Signal, legs: seq<Option<LegQuality>>)
    requires InRange(dir, pairs)
  {
    |legs| == |pairs| &&
    forall m :: 0 <= m < |pairs| ==>
      Says(sig, dir.nodes[pairs[m].0].relay.relayId, dir.nodes[pairs[m].1].exit.exitId, legs[m])
  }

  lemma {:induction false} SaysOfEach(dir: VerifiedDirectory, pairs: seq<Pair>, sig: Signal)
    returns (legs: seq<Option<LegQuality>>)
    requires InRange(dir, pairs)
    ensures SaysOfPairs(dir, pairs, sig, legs)
  {
    if pairs == [] {
      legs := [];
    } else {
      var init, last := pairs[..|pairs| - 1], pairs[|pairs| - 1];
      assert forall p :: p in init ==> p in pairs;
      legs := SaysOfEach(dir, init, sig);
      var leg := SaysOne(sig, dir.nodes[last.0].relay.relayId, dir.nodes[last.1].exit.exitId);
      legs := legs + [leg];
    }
  }

  function PairScoreAt(dir: VerifiedDirectory, pairs: seq<Pair>, rtt: NodeRtt, sig: Signal,
                       legs: seq<Option<LegQuality>>, m: nat): nat
    requires InRange(dir, pairs) && m < |pairs| == |legs|
  {
    var (e, x) := (dir.nodes[pairs[m].0], dir.nodes[pairs[m].1]);
    ScoreOf(Product(e.weight, x.weight), rtt(e), legs[m], sig.params)
  }

  ghost predicate BetterFirst(dir: VerifiedDirectory, pairs: seq<Pair>, rtt: NodeRtt, sig: Signal,
                              legs: seq<Option<LegQuality>>, k: nat, m: nat)
    requires InRange(dir, pairs) && k < |pairs| == |legs| && m < |pairs|
  {
    Ahead(PairScoreAt(dir, pairs, rtt, sig, legs, k),
          (dir.nodes[pairs[k].0].relay.relayId, dir.nodes[pairs[k].1].exit.exitId), k,
          PairScoreAt(dir, pairs, rtt, sig, legs, m),
          (dir.nodes[pairs[m].0].relay.relayId, dir.nodes[pairs[m].1].exit.exitId), m)
  }

  /** The pair at `k` is the first with these ids. */
  ghost predicate FirstWithIds(dir: VerifiedDirectory, pairs: seq<Pair>, ids: (Id, Id), k: nat)
    requires InRange(dir, pairs)
  {
    && k < |pairs|
    && dir.nodes[pairs[k].0].relay.relayId == ids.0 && dir.nodes[pairs[k].1].exit.exitId == ids.1
    && forall m :: 0 <= m < k ==>
         !(dir.nodes[pairs[m].0].relay.relayId == ids.0 && dir.nodes[pairs[m].1].exit.exitId == ids.1)
  }

  /** Every offered candidate carries the plain score, its ids and the leg's own flag. */
  lemma {:induction false} OfferMeans(dir: VerifiedDirectory, pairs: seq<Pair>, rtt: NodeRtt, sig: Signal,
                                      legs: seq<Option<LegQuality>>, m: nat)
    requires InRange(dir, pairs) && SaysOfPairs(dir, pairs, sig, legs) && m < |pairs|
    ensures var c := Ranked(dir, pairs, rtt, sig)[m];
            && c.item == pairs[m]
            && c.score == PairScoreAt(dir, pairs, rtt, sig, legs, m) < SCORE_LIMIT
            && c.tie == dir.nodes[pairs[m].0].relay.relayId + dir.nodes[pairs[m].1].exit.exitId
            && (c.degraded <==> legs[m].Some? && legs[m].value.degraded)
  {
    var (e, x) := (dir.nodes[pairs[m].0], dir.nodes[pairs[m].1]);
    SaysMeans(sig, e.relay.relayId, x.exit.exitId, legs[m]);
    ScoreMeans(e.weight, x.weight, rtt(e), legs[m], sig.params);
  }

  lemma {:induction false} BestMeans(dir: VerifiedDirectory, pairs: seq<Pair>, rtt: NodeRtt, sig: Signal,
                                     legs: seq<Option<LegQuality>>)
    returns (b: nat)
    requires InRange(dir, pairs) && SaysOfPairs(dir, pairs, sig, legs) && pairs != []
    ensures b < |pairs| && Best(Ranked(dir, pairs, rtt, sig)) == Ranked(dir, pairs, rtt, sig)[b]
    ensures forall m :: 0 <= m < |pairs| ==> BetterFirst(dir, pairs, rtt, sig, legs, b, m)
  {
    var t := Ranked(dir, pairs, rtt, sig);
    b := FirstMin(t, RankCmp);
    OfferMeans(dir, pairs, rtt, sig, legs, b);
    forall m | 0 <= m < |pairs| ensures BetterFirst(dir, pairs, rtt, sig, legs, b, m) {
      OfferMeans(dir, pairs, rtt, sig, legs, m);
      BestPosition(t, m);
      AheadIff(t, b, m, CircuitIds(dir, pairs[b]), CircuitIds(dir, pairs[m]));
    }
  }

  lemma {:induction false} FindTieFirst<T(!new)>(s: seq<Candidate<T>>, tie: seq<byte>, k: nat)
    requires k < |s| && s[k].tie == tie && forall m :: 0 <= m < k ==> s[m].tie != tie
    ensures FindTie(s, tie) == Some(s[k])
  {
    if k > 0 {
      FindTieFirst(s[1..], tie, k - 1);
    }
  }

  lemma {:induction false} IncumbentMeans(dir: VerifiedDirectory, pairs: seq<Pair>, rtt: NodeRtt, sig: Signal,
                                          ids: (Id, Id), k: nat)
    requires InRange(dir, pairs) && FirstWithIds(dir, pairs, ids, k)
    ensures FindTie(Ranked(dir, pairs, rtt, sig), Joined(ids)) == Some(Ranked(dir, pairs, rtt, sig)[k])
  {
    var t := Ranked(dir, pairs, rtt, sig);
    forall m | 0 <= m <= k ensures t[m].tie == Joined(ids) <==> m == k {
      TieBreakIsThenWith(CircuitIds(dir, pairs[m]), ids);
    }
    FindTieFirst(t, Joined(ids), k);
  }

  /** What is in use decides: the first pair with its ids is left when the advisory says its
      leg is degraded, or when the best pair beats it over the bar. */
  ghost predicate LeftFor(dir: VerifiedDirectory, pairs: seq<Pair>, rtt: NodeRtt, sig: Signal,
                          legs: seq<Option<LegQuality>>, k: nat, b: nat)
    requires InRange(dir, pairs) && k < |pairs| == |legs| && b < |pairs|
  {
    || (legs[k].Some? && legs[k].value.degraded)
    || PairScoreAt(dir, pairs, rtt, sig, legs, b) >
       BarOver(PairScoreAt(dir, pairs, rtt, sig, legs, k), sig.params.switchMarginPct)
  }

  lemma {:induction false} InUseMeans(dir: VerifiedDirectory, pairs: seq<Pair>, rtt: NodeRtt, sig: Signal,
                                      legs: seq<Option<LegQuality>>, ids: (Id, Id), k: nat, b: nat)
    requires InRange(dir, pairs) && SaysOfPairs(dir, pairs, sig, legs)
    requires FirstWithIds(dir, pairs, ids, k) && b < |pairs|
    requires Best(Ranked(dir, pairs, rtt, sig)) == Ranked(dir, pairs, rtt, sig)[b]
    ensures SelectCircuit(dir, pairs, rtt, sig, Some(ids)) ==
            Some(pairs[if LeftFor(dir, pairs, rtt, sig, legs, k, b) then b else k])
  {
    IncumbentMeans(dir, pairs, rtt, sig, ids, k);
    OfferMeans(dir, pairs, rtt, sig, legs, k);
    OfferMeans(dir, pairs, rtt, sig, legs, b);
    BarMeans(Ranked(dir, pairs, rtt, sig)[k].score, sig.params.switchMarginPct);
  }

  lemma {:induction false} NotInUseMeans(dir: VerifiedDirectory, pairs: seq<Pair>, rtt: NodeRtt, sig: Signal,
                                         prev: Option<(Id, Id)>, b: nat)
    requires InRange(dir, pairs) && b < |pairs|
    requires Best(Ranked(dir, pairs, rtt, sig)) == Ranked(dir, pairs, rtt, sig)[b]
    requires prev.Some? ==> forall k :: 0 <= k < |pairs| ==> !FirstWithIds(dir, pairs, prev.value, k)
    ensures SelectCircuit(dir, pairs, rtt, sig, prev) == Some(pairs[b])
  {
    if prev.Some? && FindTie(Ranked(dir, pairs, rtt, sig), Joined(prev.value)).Some? {
      var k := FirstPosition(dir, pairs, rtt, sig, prev.value);
    }
  }

  /** The whole rule of the pair view. The best pair is ahead of every other. It is taken when
      nothing is in use or no offered pair has the ids in use; the first that has them is kept
      unless it is left for the best. */
  lemma {:induction false} SelectMeans(dir: VerifiedDirectory, pairs: seq<Pair>, rtt: NodeRtt, sig: Signal,
                                       legs: seq<Option<LegQuality>>, prev: Option<(Id, Id)>)
    returns (b: nat)
    requires InRange(dir, pairs) && SaysOfPairs(dir, pairs, sig, legs) && pairs != []
    ensures b < |pairs| && forall m :: 0 <= m < |pairs| ==> BetterFirst(dir, pairs, rtt, sig, legs, b, m)
    ensures (prev.None? || forall k :: 0 <= k < |pairs| ==> !FirstWithIds(dir, pairs, prev.value, k)) ==>
              SelectCircuit(dir, pairs, rtt, sig, prev) == Some(pairs[b])
    ensures prev.Some? ==> forall k :: 0 <= k < |pairs| && FirstWithIds(dir, pairs, prev.value, k) ==>
              SelectCircuit(dir, pairs, rtt, sig, prev) ==
              Some(pairs[if LeftFor(dir, pairs, rtt, sig, legs, k, b) then b else k])
  {
    b := BestMeans(dir, pairs, rtt, sig, legs);
    if prev.None? || forall k :: 0 <= k < |pairs| ==> !FirstWithIds(dir, pairs, prev.value, k) {
      NotInUseMeans(dir, pairs, rtt, sig, prev, b);
    } else {
      forall k | 0 <= k < |pairs| && FirstWithIds(dir, pairs, prev.value, k)
        ensures SelectCircuit(dir, pairs, rtt, sig, prev) ==
                Some(pairs[if LeftFor(dir, pairs, rtt, sig, legs, k, b) then b else k])
      {
        InUseMeans(dir, pairs, rtt, sig, legs, prev.value, k, b);
      }
    }
  }

  /** A found incumbent stands at a first position. */
  lemma {:induction false} FirstPosition(dir: VerifiedDirectory, pairs: seq<Pair>, rtt: NodeRtt, sig: Signal,
                                         ids: (Id, Id))
    returns (k: nat)
    requires InRange(dir, pairs) && FindTie(Ranked(dir, pairs, rtt, sig), Joined(ids)).Some?
    ensures FirstWithIds(dir, pairs, ids, k)
  {
    var t := Ranked(dir, pairs, rtt, sig);
    var c := FindTie(t, Joined(ids)).value;
    var m: nat :| m < |t| && t[m] == c;
    TieBreakIsThenWith(CircuitIds(dir, pairs[m]), ids);
    k := Earliest(dir, pairs, ids, m);
  }

  lemma {:induction false} Earliest(dir: VerifiedDirectory, pairs: seq<Pair>, ids: (Id, Id), m: nat)
    returns (k: nat)
    requires InRange(dir, pairs) && m < |pairs|
    requires dir.nodes[pairs[m].0].relay.relayId == ids.0 && dir.nodes[pairs[m].1].exit.exitId == ids.1
    ensures FirstWithIds(dir, pairs, ids, k)
  {
    if n :| 0 <= n < m && dir.nodes[pairs[n].0].relay.relayId == ids.0 && dir.nodes[pairs[n].1].exit.exitId == ids.1 {
      k := Earliest(dir, pairs, ids, n);
    } else {
      k := m;
    }
  }

  // ---- the flat entry view ------------------------------------------------------------------

  /** Different nodes, different countries, and different known ASNs where required. */
  predicate MayCarry(entry: VerifiedEntry, exit: VerifiedExit, policy: CircuitPolicy) {
    && entry.exitId != exit.exitId && !EqIgnoreCase(entry.country, exit.country)
    && (policy.asDiversityRequired ==> entry.asn != 0 && exit.asn != 0 && entry.asn != exit.asn)
  }

  /** Where the permitted entries stand in the list, in order. */
  ghost predicate PermittedAt(entries: seq<VerifiedEntry>, exit: VerifiedExit, policy: CircuitPolicy, at: seq<nat>) {
    && StandAt(Permitted(entries, exit, policy), entries, at) && Ascending(at)
    && (forall m: nat {:trigger Listed(at, m)} ::
          m < |entries| ==> (Listed(at, m) <==> MayCarry(entries[m], exit, policy)))
  }

  ghost predicate StandAt(some: seq<VerifiedEntry>, entries: seq<VerifiedEntry>, at: seq<nat>) {
    |at| == |some| && forall t :: 0 <= t < |at| ==> at[t] < |entries| && some[t] == entries[at[t]]
  }

  ghost predicate Ascending(at: seq<nat>) {
    forall t, u :: 0 <= t < u < |at| ==> at[t] < at[u]
  }

  ghost predicate Listed(at: seq<nat>, m: nat) {
    m in at
  }

  lemma {:induction false} PermittedPositions(entries: seq<VerifiedEntry>, exit: VerifiedExit, policy: CircuitPolicy)
    returns (at: seq<nat>)
    ensures PermittedAt(entries, exit, policy, at)
  {
    at := [];
    if entries != [] {
      var rest := PermittedPositions(entries[1..], exit, policy);
      at := OneMore(entries, exit, policy, rest);
    }
  }

  lemma {:induction false} OneMore(entries: seq<VerifiedEntry>, exit: VerifiedExit, policy: CircuitPolicy,
                                   rest: seq<nat>)
    returns (at: seq<nat>)
    requires entries != [] && PermittedAt(entries[1..], exit, policy, rest)
    ensures PermittedAt(entries, exit, policy, at)
  {
    var first := policy.Permits(entries[0], exit);
    var shifted := seq(|rest|, t requires 0 <= t < |rest| => rest[t] + 1);
    at := if first then [0] + shifted else shifted;
    var tail := Permitted(entries[1..], exit, policy);
    Shifted(entries, tail, rest, shifted);
    FirstPermitted(entries, exit, policy);
    forall m: nat | m < |entries| ensures Listed(at, m) <==> MayCarry(entries[m], exit, policy) {
      OneMoreListed(entries, exit, policy, rest, shifted, m);
      PrependedIn(shifted, m);
    }
  }

  lemma FirstPermitted(entries: seq<VerifiedEntry>, exit: VerifiedExit, policy: CircuitPolicy)
    requires entries != []
    ensures Permitted(entries, exit, policy) ==
            if policy.Permits(entries[0], exit) then [entries[0]] + Permitted(entries[1..], exit, policy)
            else Permitted(entries[1..], exit, policy)
  {
  }

  lemma PrependedIn(shifted: seq<nat>, m: nat)
    ensures Listed([0] + shifted, m) <==> m == 0 || Listed(shifted, m)
  {
  }

  /** One entry more in front moves every position by one, and may take position 0. */
  lemma Shifted(entries: seq<VerifiedEntry>, tail: seq<VerifiedEntry>, rest: seq<nat>, shifted: seq<nat>)
    requires entries != [] && StandAt(tail, entries[1..], rest) && Ascending(rest)
    requires |shifted| == |rest| && forall t :: 0 <= t < |rest| ==> shifted[t] == rest[t] + 1
    ensures StandAt(tail, entries, shifted) && Ascending(shifted)
    ensures StandAt([entries[0]] + tail, entries, [0] + shifted) && Ascending([0] + shifted)
  {
  }

  lemma OneMoreListed(entries: seq<VerifiedEntry>, exit: VerifiedExit, policy: CircuitPolicy, rest: seq<nat>,
                      shifted: seq<nat>, m: nat)
    requires entries != [] && m < |entries| && PermittedAt(entries[1..], exit, policy, rest)
    requires |shifted| == |rest| && forall t :: 0 <= t < |rest| ==> shifted[t] == rest[t] + 1
    ensures Listed(shifted, m) <==> m > 0 && MayCarry(entries[m], exit, policy)
    ensures policy.Permits(entries[0], exit) <==> MayCarry(entries[0], exit, policy)
  {
    if m > 0 {
      ShiftedIn(rest, shifted, m - 1);
      assert entries[m] == entries[1..][m - 1] && (Listed(rest, m - 1) <==> MayCarry(entries[m], exit, policy));
    }
  }

  lemma ShiftedIn(rest: seq<nat>, shifted: seq<nat>, m: nat)
    requires |shifted| == |rest| && forall t :: 0 <= t < |rest| ==> shifted[t] == rest[t] + 1
    ensures Listed(shifted, m + 1) <==> Listed(rest, m)
  {
    if Listed(rest, m) {
      var t :| 0 <= t < |rest| && rest[t] == m;
      assert shifted[t] == m + 1;
    }
  }

  function EntryScoreAt(entries: seq<VerifiedEntry>, exit: VerifiedExit, rtt: EntryRtt, sig: Signal,
                        legs: seq<Option<LegQuality>>, m: nat): nat
    requires m < |entries| == |legs|
  {
    ScoreOf(Product(entries[m].weight, exit.weight), rtt(entries[m]), legs[m], sig.params)
  }

  /** What the advisory says of each entry's leg to the exit. */
  ghost predicate SaysOfEntries(entries: seq<VerifiedEntry>, exit: VerifiedExit, sig: Signal,
                                legs: seq<Option<LegQuality>>)
  {
    |legs| == |entries| && forall m :: 0 <= m < |entries| ==> Says(sig, entries[m].exitId, exit.exitId, legs[m])
  }

  lemma {:induction false} SaysOfEachEntry(entries: seq<VerifiedEntry>, exit: VerifiedExit, sig: Signal)
    returns (legs: seq<Option<LegQuality>>)
    ensures SaysOfEntries(entries, exit, sig, legs)
  {
    if entries == [] {
      legs := [];
    } else {
      legs := SaysOfEachEntry(entries[..|entries| - 1], exit, sig);
      var leg := SaysOne(sig, entries[|entries| - 1].exitId, exit.exitId);
      legs := legs + [leg];
    }
  }

  /** Higher score, then the smaller id, then earlier. */
  ghost predicate EntryFirst(entries: seq<VerifiedEntry>, exit: VerifiedExit, rtt: EntryRtt, sig: Signal,
                             legs: seq<Option<LegQuality>>, k: nat, m: nat)
    requires k < |entries| == |legs| && m < |entries|
  {
    var (s, s') := (EntryScoreAt(entries, exit, rtt, sig, legs, k), EntryScoreAt(entries, exit, rtt, sig, legs, m));
    || s' < s
    || (s' == s && (|| BytesBefore(entries[k].exitId, entries[m].exitId)
                    || (entries[k].exitId == entries[m].exitId && k <= m)))
  }

  /** A ranking whose candidates are plainly scored. */
  ghost predicate RankedAt(t: seq<Candidate<VerifiedEntry>>, entries: seq<VerifiedEntry>, exit: VerifiedExit,
                           rtt: EntryRtt, sig: Signal, legs: seq<Option<LegQuality>>, at: seq<nat>)
    requires |entries| == |legs|
  {
    && |t| == |at|
    && (forall u, v :: 0 <= u < v < |at| ==> at[u] < at[v])
    && (forall u :: 0 <= u < |at| ==>
          && at[u] < |entries| && t[u].item == entries[at[u]] && t[u].tie == entries[at[u]].exitId
          && t[u].score == EntryScoreAt(entries, exit, rtt, sig, legs, at[u]) < SCORE_LIMIT
          && (t[u].degraded <==> legs[at[u]].Some? && legs[at[u]].value.degraded))
  }

  lemma {:induction false} EntryOfferMeans(entries: seq<VerifiedEntry>, exit: VerifiedExit, policy: CircuitPolicy,
                                           rtt: EntryRtt, sig: Signal, legs: seq<Option<LegQuality>>, at: seq<nat>)
    requires SaysOfEntries(entries, exit, sig, legs) && PermittedAt(entries, exit, policy, at)
    ensures RankedAt(RankedEntries(entries, exit, policy, rtt, sig), entries, exit, rtt, sig, legs, at)
  {
    var t := RankedEntries(entries, exit, policy, rtt, sig);
    forall u | 0 <= u < |at|
      ensures t[u].item == entries[at[u]] && t[u].tie == entries[at[u]].exitId
      ensures t[u].score == EntryScoreAt(entries, exit, rtt, sig, legs, at[u]) < SCORE_LIMIT
      ensures t[u].degraded <==> legs[at[u]].Some? && legs[at[u]].value.degraded
    {
      var e := entries[at[u]];
      SaysMeans(sig, e.exitId, exit.exitId, legs[at[u]]);
      ScoreMeans(e.weight, exit.weight, rtt(e), legs[at[u]], sig.params);
    }
  }

  lemma EntryFirstIff(t: seq<Candidate<VerifiedEntry>>, entries: seq<VerifiedEntry>, exit: VerifiedExit,
                      rtt: EntryRtt, sig: Signal, legs: seq<Option<LegQuality>>, at: seq<nat>, u: nat, v: nat)
    requires |entries| == |legs| && RankedAt(t, entries, exit, rtt, sig, legs, at) && u < |t| && v < |t|
    ensures Precedes(t, u, v) <==> EntryFirst(entries, exit, rtt, sig, legs, at[u], at[v])
  {
    BytesBeforeIff(t[u].tie, t[v].tie);
    assert u < v ==> at[u] < at[v];
    assert v < u ==> at[v] < at[u];
  }

  /** The entry in use, as the sorted ranking finds it: of the permitted entries with the id,
      the best scored, then the first. */
  ghost predicate EntryWithId(entries: seq<VerifiedEntry>, exit: VerifiedExit, policy: CircuitPolicy, rtt: EntryRtt,
                              sig: Signal, legs: seq<Option<LegQuality>>, id: Id, k: nat)
    requires |entries| == |legs|
  {
    && k < |entries| && MayCarry(entries[k], exit, policy) && entries[k].exitId == id
    && forall m :: 0 <= m < |entries| && MayCarry(entries[m], exit, policy) && entries[m].exitId == id ==>
         EntryFirst(entries, exit, rtt, sig, legs, k, m)
  }

  /** Sorting puts the first of the best with an identifier before its other bearers. */
  lemma {:induction false} SortedTie<T(!new)>(s: seq<Candidate<T>>, tie: seq<byte>)
    returns (k: nat)
    requires FindTie(StableSort(s, RankCmp), tie).Some?
    ensures k < |s| && s[k].tie == tie && FindTie(StableSort(s, RankCmp), tie) == Some(s[k])
    ensures forall m :: 0 <= m < |s| && s[m].tie == tie ==> Precedes(s, k, m)
  {
    var sorted := StableSort(s, RankCmp);
    var j := TiePosition(sorted, tie);
    var c := sorted[j];
    k := FirstAlike(s, c, j);
    forall m | 0 <= m < |s| && s[m].tie == tie ensures Precedes(s, k, m) {
      NoHigher(s, j, m);
      SameRank(s[m], c);
    }
  }

  lemma SameRank<T(!new)>(a: Candidate<T>, b: Candidate<T>)
    ensures RankCmp(a, b) == Equal <==> a.score == b.score && a.tie == b.tie
  {
    LexAntisymmetric(CmpByte, a.tie, b.tie);
  }

  /** The first that ranks as the first of its kind in the sorted order is that very one. */
  lemma {:induction false} FirstAlike<T(!new)>(s: seq<Candidate<T>>, c: Candidate<T>, j: nat)
    returns (k: nat)
    requires j < |s| && StableSort(s, RankCmp)[j] == c
    requires forall i :: 0 <= i < j ==> StableSort(s, RankCmp)[i].tie != c.tie
    ensures k < |s| && s[k] == c
    ensures forall i :: 0 <= i < k ==> RankCmp(s[i], c) != Equal
  {
    RankTotal<T>();
    SortStable(s, c, RankCmp);
    HeadOfKind(StableSort(s, RankCmp), c, j);
    k := ClassFirst(s, c, RankCmp);
  }

  lemma {:induction false} HeadOfKind<T(!new)>(sorted: seq<Candidate<T>>, c: Candidate<T>, j: nat)
    requires j < |sorted| && sorted[j] == c && forall i :: 0 <= i < j ==> sorted[i].tie != c.tie
    ensures Class(sorted, c, RankCmp) != [] && Class(sorted, c, RankCmp)[0] == c
  {
    SameRank(c, c);
    InClass(sorted, c, j, RankCmp);
    var j' := ClassFirst(sorted, c, RankCmp);
    SameRank(sorted[j'], c);
  }

  lemma SortedPosition<T(!new)>(s: seq<Candidate<T>>, m: nat) returns (n: nat)
    requires m < |s|
    ensures n < |s| && StableSort(s, RankCmp)[n] == s[m]
  {
    SortedRanking(s);
    assert s[m] in s;
    n :| 0 <= n < |s| && StableSort(s, RankCmp)[n] == s[m];
  }

  /** No bearer of the identifier scores above the first of them in the sorted order. */
  lemma {:induction false} NoHigher<T(!new)>(s: seq<Candidate<T>>, j: nat, m: nat)
    requires j < |s| && m < |s| && s[m].tie == StableSort(s, RankCmp)[j].tie
    requires forall i :: 0 <= i < j ==> StableSort(s, RankCmp)[i].tie != s[m].tie
    ensures s[m].score <= StableSort(s, RankCmp)[j].score
  {
    RankTotal<T>();
    var sorted := StableSort(s, RankCmp);
    SortSorted(s, RankCmp);
    var n := SortedPosition(s, m);
    assert j < n ==> RankCmp(sorted[j], sorted[n]) != Greater;
  }

  lemma {:induction false} TiePosition<T(!new)>(s: seq<Candidate<T>>, tie: seq<byte>)
    returns (j: nat)
    requires FindTie(s, tie).Some?
    ensures j < |s| && FindTie(s, tie) == Some(s[j]) && forall i :: 0 <= i < j ==> s[i].tie != tie
  {
    if s[0].tie == tie {
      j := 0;
    } else {
      j := TiePosition(s[1..], tie);
      j := j + 1;
    }
  }

  /** What the flat view finds in use is the entry described. */
  lemma {:induction false} EntryInUseMeans(entries: seq<VerifiedEntry>, exit: VerifiedExit, policy: CircuitPolicy,
                                           rtt: EntryRtt, sig: Signal, legs: seq<Option<LegQuality>>, at: seq<nat>,
                                           id: Id)
    returns (u: nat)
    requires SaysOfEntries(entries, exit, sig, legs) && PermittedAt(entries, exit, policy, at)
    requires EntryInUse(entries, exit, policy, rtt, sig, id).Some?
    ensures u < |at| && EntryWithId(entries, exit, policy, rtt, sig, legs, id, at[u])
    ensures EntryInUse(entries, exit, policy, rtt, sig, id) == Some(RankedEntries(entries, exit, policy, rtt, sig)[u])
  {
    var t := RankedEntries(entries, exit, policy, rtt, sig);
    EntryOfferMeans(entries, exit, policy, rtt, sig, legs, at);
    u := SortedTie(t, id);
    assert Listed(at, at[u]);
    forall m | 0 <= m < |entries| && MayCarry(entries[m], exit, policy) && entries[m].exitId == id
      ensures EntryFirst(entries, exit, rtt, sig, legs, at[u], m)
    {
      assert Listed(at, m);
      var v :| 0 <= v < |at| && at[v] == m;
      EntryFirstIff(t, entries, exit, rtt, sig, legs, at, u, v);
    }
  }

  lemma EntryWithIdUnique(entries: seq<VerifiedEntry>, exit: VerifiedExit, policy: CircuitPolicy, rtt: EntryRtt,
                          sig: Signal, legs: seq<Option<LegQuality>>, id: Id, k: nat, m: nat)
    requires |entries| == |legs|
    requires EntryWithId(entries, exit, policy, rtt, sig, legs, id, k)
    requires EntryWithId(entries, exit, policy, rtt, sig, legs, id, m)
    ensures k == m
  {
    BytesBeforeIff(id, id);
    LexAntisymmetric(CmpByte, id, id);
    assert EntryFirst(entries, exit, rtt, sig, legs, k, m) && EntryFirst(entries, exit, rtt, sig, legs, m, k);
  }

  lemma {:induction false} EntryIsInUse(entries: seq<VerifiedEntry>, exit: VerifiedExit, policy: CircuitPolicy,
                                        rtt: EntryRtt, sig: Signal, at: seq<nat>, id: Id, k: nat)
    requires PermittedAt(entries, exit, policy, at)
    requires k < |entries| && MayCarry(entries[k], exit, policy) && entries[k].exitId == id
    ensures EntryInUse(entries, exit, policy, rtt, sig, id).Some?
  {
    var t := RankedEntries(entries, exit, policy, rtt, sig);
    assert Listed(at, k);
    var v :| 0 <= v < |at| && at[v] == k;
    assert t[v] in t && t[v].tie == id;
    SortedRanking(t);
  }

  /** The best permitted entry. */
  ghost predicate BestEntry(entries: seq<VerifiedEntry>, exit: VerifiedExit, policy: CircuitPolicy, rtt: EntryRtt,
                            sig: Signal, legs: seq<Option<LegQuality>>, b: nat)
    requires |entries| == |legs|
  {
    && b < |entries| && MayCarry(entries[b], exit, policy)
    && forall m :: 0 <= m < |entries| && MayCarry(entries[m], exit, policy) ==>
         EntryFirst(entries, exit, rtt, sig, legs, b, m)
  }

  lemma {:induction false} BestEntryMeans(entries: seq<VerifiedEntry>, exit: VerifiedExit, policy: CircuitPolicy,
                                          rtt: EntryRtt, sig: Signal, legs: seq<Option<LegQuality>>, at: seq<nat>)
    returns (f: nat)
    requires SaysOfEntries(entries, exit, sig, legs) && PermittedAt(entries, exit, policy, at) && at != []
    ensures f < |at| && BestEntry(entries, exit, policy, rtt, sig, legs, at[f])
    ensures var t := RankedEntries(entries, exit, policy, rtt, sig); f < |t| && Best(t) == t[f]
  {
    var t := RankedEntries(entries, exit, policy, rtt, sig);
    EntryOfferMeans(entries, exit, policy, rtt, sig, legs, at);
    f := FirstMin(t, RankCmp);
    assert Listed(at, at[f]);
    forall m | 0 <= m < |entries| && MayCarry(entries[m], exit, policy)
      ensures EntryFirst(entries, exit, rtt, sig, legs, at[f], m)
    {
      assert Listed(at, m);
      var v :| 0 <= v < |at| && at[v] == m;
      BestPosition(t, v);
      EntryFirstIff(t, entries, exit, rtt, sig, legs, at, f, v);
    }
  }

  /** The advisory degrades the entry in use, or the best one beats it over the bar. */
  ghost predicate EntryLeftFor(entries: seq<VerifiedEntry>, exit: VerifiedExit, rtt: EntryRtt, sig: Signal,
                               legs: seq<Option<LegQuality>>, k: nat, b: nat)
    requires k < |entries| == |legs| && b < |entries|
  {
    || (legs[k].Some? && legs[k].value.degraded)
    || EntryScoreAt(entries, exit, rtt, sig, legs, b) >
       BarOver(EntryScoreAt(entries, exit, rtt, sig, legs, k), sig.params.switchMarginPct)
  }

  lemma {:induction false} ChoiceMeans(t: seq<Candidate<VerifiedEntry>>, entries: seq<VerifiedEntry>,
                                       exit: VerifiedExit,
                                       rtt: EntryRtt, sig: Signal, legs: seq<Option<LegQuality>>, at: seq<nat>,
                                       inUse: Option<nat>, f: nat)
    requires |entries| == |legs| && RankedAt(t, entries, exit, rtt, sig, legs, at) && f < |t| && Best(t) == t[f]
    requires inUse.Some? ==> inUse.value < |t|
    ensures Choose(t, if inUse.None? then None else Some(t[inUse.value]), sig.params.switchMarginPct).item ==
            if inUse.None? || EntryLeftFor(entries, exit, rtt, sig, legs, at[inUse.value], at[f])
            then entries[at[f]] else entries[at[inUse.value]]
  {
    if inUse.Some? {
      BarMeans(t[inUse.value].score, sig.params.switchMarginPct);
    }
  }

  /** What the rule makes of the entry in use, given the best: the best when nothing is in use
      or no permitted entry has the id in use; otherwise the one that has it, unless left. */
  ghost predicate FlatRule(entries: seq<VerifiedEntry>, exit: VerifiedExit, policy: CircuitPolicy, rtt: EntryRtt,
                           sig: Signal, legs: seq<Option<LegQuality>>, prev: Option<Id>, b: nat,
                           r: Option<VerifiedEntry>)
    requires |entries| == |legs| && b < |entries|
  {
    && ((prev.None? ||
         forall k :: 0 <= k < |entries| ==> !EntryWithId(entries, exit, policy, rtt, sig, legs, prev.value, k)) ==>
          r == Some(entries[b]))
    && (prev.Some? ==>
          forall k | 0 <= k < |entries| && EntryWithId(entries, exit, policy, rtt, sig, legs, prev.value, k) ::
            r == Some(entries[if EntryLeftFor(entries, exit, rtt, sig, legs, k, b) then b else k]))
  }

  /** The whole rule of the flat view: nothing when no entry is permitted, and otherwise the
      rule above on the best permitted entry. */
  lemma {:induction false} EntrySelectMeans(entries: seq<VerifiedEntry>, exit: VerifiedExit, policy: CircuitPolicy,
                                            rtt: EntryRtt, sig: Signal, legs: seq<Option<LegQuality>>,
                                            prev: Option<Id>)
    returns (b: nat)
    requires SaysOfEntries(entries, exit, sig, legs)
    ensures if exists m :: 0 <= m < |entries| && MayCarry(entries[m], exit, policy)
            then BestEntry(entries, exit, policy, rtt, sig, legs, b) &&
                 FlatRule(entries, exit, policy, rtt, sig, legs, prev, b,
                          SelectEntry(entries, exit, policy, rtt, sig, prev))
            else SelectEntry(entries, exit, policy, rtt, sig, prev) == None
  {
    var at := PermittedPositions(entries, exit, policy);
    b := |entries|;
    if at == [] {
      forall m | 0 <= m < |entries| ensures !MayCarry(entries[m], exit, policy) {
        assert !Listed(at, m);
      }
    } else {
      assert Listed(at, at[0]);
      var f := BestEntryMeans(entries, exit, policy, rtt, sig, legs, at);
      b := at[f];
      EntryCaseMeans(entries, exit, policy, rtt, sig, legs, at, prev, f);
    }
  }

  lemma {:induction false} EntryCaseMeans(entries: seq<VerifiedEntry>, exit: VerifiedExit, policy: CircuitPolicy,
                                          rtt: EntryRtt,
                                          sig: Signal, legs: seq<Option<LegQuality>>, at: seq<nat>, prev: Option<Id>,
                                          f: nat)
    requires SaysOfEntries(entries, exit, sig, legs) && PermittedAt(entries, exit, policy, at) && f < |at|
    requires Best(RankedEntries(entries, exit, policy, rtt, sig)) == RankedEntries(entries, exit, policy, rtt, sig)[f]
    ensures FlatRule(entries, exit, policy, rtt, sig, legs, prev, at[f],
                     SelectEntry(entries, exit, policy, rtt, sig, prev))
  {
    var t := RankedEntries(entries, exit, policy, rtt, sig);
    EntryOfferMeans(entries, exit, policy, rtt, sig, legs, at);
    if prev.None? || EntryInUse(entries, exit, policy, rtt, sig, prev.value).None? {
      ChoiceMeans(t, entries, exit, rtt, sig, legs, at, None, f);
      if prev.Some? {
        forall k | 0 <= k < |entries| ensures !EntryWithId(entries, exit, policy, rtt, sig, legs, prev.value, k) {
          if EntryWithId(entries, exit, policy, rtt, sig, legs, prev.value, k) {
            EntryIsInUse(entries, exit, policy, rtt, sig, at, prev.value, k);
          }
        }
      }
    } else {
      var u := EntryInUseMeans(entries, exit, policy, rtt, sig, legs, at, prev.value);
      ChoiceMeans(t, entries, exit, rtt, sig, legs, at, Some(u), f);
      forall k | 0 <= k < |entries| && EntryWithId(entries, exit, policy, rtt, sig, legs, prev.value, k)
        ensures k == at[u]
      {
        EntryWithIdUnique(entries, exit, policy, rtt, sig, legs, prev.value, k, at[u]);
      }
    }
  }
}
