/** The deterministic exit and entry picks, and exactly when the entry pick agrees with
    the path-aware ranking. */
module Pick {
  import opened Wrappers
  import opened Machine
  import opened Text
  import opened Order
  import opened Directory
  import opened Circuits
  import opened Ranking
  import opened PathScore
  import opened PathAware

  datatype Continent = Europe | Americas | Asia | Africa | Oceania

  /** The country table, a finite lookup this model leaves abstract. */
  type CountryTable = string -> Option<Continent>

  datatype ExitChoice = ExitChoice(weight: u64, exitId: Id)

  datatype EntryOption = EntryOption(weight: u64, nodeId: Id, country: string)

  /** Highest weight, then smallest id, then first index. */
  ghost predicate Preferred(w: u64, id: Id, k: nat, w': u64, id': Id, k': nat) {
    w' < w || (w' == w && (CmpBytes(id, id') == Less || (id == id' && k <= k')))
  }

  function ExitRanking(candidates: seq<ExitChoice>): seq<Candidate<nat>> {
    seq(|candidates|, k requires 0 <= k < |candidates| =>
      Candidate(k, candidates[k].weight, candidates[k].exitId, false))
  }

  function PickExit(candidates: seq<ExitChoice>): (r: Option<nat>)
    ensures r.Some? <==> candidates != []
    ensures r.Some? ==> r.value < |candidates|
  {
    if candidates == [] then None else Some(Best(ExitRanking(candidates)).item)
  }

  lemma PickExitBest(candidates: seq<ExitChoice>, m: nat)
    requires m < |candidates|
    ensures var k := PickExit(candidates).value;
            Preferred(candidates[k].weight, candidates[k].exitId, k, candidates[m].weight, candidates[m].exitId, m)
  {
    BestPosition(ExitRanking(candidates), m);
  }

  /** The indices on the client's continent, in order. */
  function LocalIndices(table: CountryTable, candidates: seq<EntryOption>, client: Continent): seq<nat> {
    if candidates == [] then []
    else
      var last := |candidates| - 1;
      LocalIndices(table, candidates[..last], client) +
        (if table(candidates[last].country) == Some(client) then [last] else [])
  }

  function PreferClientContinent(table: CountryTable, candidates: seq<EntryOption>,
                                 client: Option<Continent>): seq<nat>
  {
    var local := if client.None? then [] else LocalIndices(table, candidates, client.value);
    if local == [] then Indices(|candidates|) else local
  }

  /** 0, 1, ..., n - 1. */
  function Indices(n: nat): (r: seq<nat>)
    ensures |r| == n && forall i: nat :: (i in r <==> i < n) && (i < n ==> r[i] == i)
  {
    var r := seq(n, i => i);
    assert forall i: nat :: i < n ==> r[i] in r;
    r
  }

  lemma {:induction false} LocalExact(table: CountryTable, candidates: seq<EntryOption>, client: Continent)
    ensures forall i: nat :: i in LocalIndices(table, candidates, client) <==>
              i < |candidates| && table(candidates[i].country) == Some(client)
    ensures Increasing(LocalIndices(table, candidates, client))
  {
    if candidates != [] {
      var last := |candidates| - 1;
      LocalExact(table, candidates[..last], client);
      var init := LocalIndices(table, candidates[..last], client);
      var here := table(candidates[last].country) == Some(client);
      assert LocalIndices(table, candidates, client) == init + (if here then [last] else []);
      forall k | 0 <= k < |init| ensures init[k] < last {
        assert init[k] in init;
      }
    }
  }

  ghost predicate Increasing(s: seq<nat>) {
    forall a, b :: 0 <= a < b < |s| ==> s[a] < s[b]
  }

  predicate AnyLocal(table: CountryTable, candidates: seq<EntryOption>, client: Option<Continent>) {
    client.Some? && exists m :: 0 <= m < |candidates| && table(candidates[m].country) == client
  }

  lemma {:induction false} AnyLocalIff(table: CountryTable, candidates: seq<EntryOption>, client: Continent)
    ensures AnyLocal(table, candidates, Some(client)) <==> LocalIndices(table, candidates, client) != []
  {
    LocalExact(table, candidates, client);
    var local := LocalIndices(table, candidates, client);
    if local != [] {
      assert local[0] in local;
    }
    if AnyLocal(table, candidates, Some(client)) {
      var m: nat :| m < |candidates| && table(candidates[m].country) == Some(client);
      assert m in local;
    }
  }

  /** The continent preference narrows, it never empties: the local indices when there are
      some, every index otherwise. */
  lemma PreferenceNarrows(table: CountryTable, candidates: seq<EntryOption>, client: Option<Continent>)
    ensures Increasing(PreferClientContinent(table, candidates, client))
    ensures forall i: nat :: i in PreferClientContinent(table, candidates, client) <==>
              i < |candidates| && (AnyLocal(table, candidates, client) ==> table(candidates[i].country) == client)
  {
    if client.Some? {
      AnyLocalIff(table, candidates, client.value);
      LocalExact(table, candidates, client.value);
    }
  }

  function EntryRanking(candidates: seq<EntryOption>, indices: seq<nat>): seq<Candidate<nat>>
    requires forall k :: 0 <= k < |indices| ==> indices[k] < |candidates|
  {
    seq(|indices|, k requires 0 <= k < |indices| =>
      Candidate(indices[k], candidates[indices[k]].weight, candidates[indices[k]].nodeId, false))
  }

  function PickEntry(table: CountryTable, candidates: seq<EntryOption>, client: Option<Continent>): Option<nat> {
    var indices := PreferClientContinent(table, candidates, client);
    PreferenceInRange(table, candidates, client);
    if indices == [] then None else Some(Best(EntryRanking(candidates, indices)).item)
  }

  lemma PreferenceInRange(table: CountryTable, candidates: seq<EntryOption>, client: Option<Continent>)
    ensures var indices := PreferClientContinent(table, candidates, client);
            forall k :: 0 <= k < |indices| ==> indices[k] < |candidates|
  {
    PreferenceNarrows(table, candidates, client);
    var indices := PreferClientContinent(table, candidates, client);
    forall k | 0 <= k < |indices| ensures indices[k] < |candidates| {
      assert indices[k] in indices;
    }
  }

  lemma BestOfIndices(candidates: seq<EntryOption>, indices: seq<nat>, n: nat)
    requires forall k :: 0 <= k < |indices| ==> indices[k] < |candidates|
    requires Increasing(indices) && n < |indices|
    ensures var k, m := Best(EntryRanking(candidates, indices)).item, indices[n];
            && k in indices
            && Preferred(candidates[k].weight, candidates[k].nodeId, k, candidates[m].weight, candidates[m].nodeId, m)
  {
    var s := EntryRanking(candidates, indices);
    BestPosition(s, n);
    var f := FirstMin(s, RankCmp);
    assert s[f].item == indices[f];
    assert f <= n ==> indices[f] <= indices[n];
  }

  /** The pick beats every index the continent preference leaves. */
  lemma {:induction false} PickEntryBest(table: CountryTable, candidates: seq<EntryOption>,
                                         client: Option<Continent>, m: nat)
    requires m in PreferClientContinent(table, candidates, client)
    ensures PickEntry(table, candidates, client).Some?
    ensures var k := PickEntry(table, candidates, client).value;
            && k < |candidates| && m < |candidates| && k in PreferClientContinent(table, candidates, client)
            && Preferred(candidates[k].weight, candidates[k].nodeId, k, candidates[m].weight, candidates[m].nodeId, m)
  {
    PreferenceNarrows(table, candidates, client);
    PreferenceInRange(table, candidates, client);
    var indices := PreferClientContinent(table, candidates, client);
    var n :| 0 <= n < |indices| && indices[n] == m;
    BestOfIndices(candidates, indices, n);
  }

  // ---- agreement with the path-aware entry ranking ---------------------------------------

  /** A location-blind client never consults the table. */
  function NoTable(country: string): Option<Continent> {
    None
  }

  /** What the entry pick sees of the entries permitted for an exit. */
  function Options(permitted: seq<VerifiedEntry>): seq<EntryOption> {
    seq(|permitted|, k requires 0 <= k < |permitted| =>
      EntryOption(permitted[k].weight, permitted[k].exitId, permitted[k].country))
  }

  /** No client RTT and no fresh advisory leg toward this exit. */
  predicate NoEntrySignal(permitted: seq<VerifiedEntry>, exit: VerifiedExit, rtt: EntryRtt, sig: Signal) {
    forall e :: e in permitted ==> rtt(e).None? && FreshLeg(sig, e.exitId, exit.exitId).None?
  }

  function NeutralEntryScore(w: u64, exitWeight: u64, params: PathAwareParams): u128 {
    NeutralScore(WeightProduct(w, exitWeight), params)
  }

  /** A lighter weight that the no-signal score cannot tell from `top`. */
  predicate Confused(w: u64, top: u64, exitWeight: u64, params: PathAwareParams) {
    w < top && NeutralEntryScore(w, exitWeight, params) == NeutralEntryScore(top, exitWeight, params)
  }

  lemma {:induction false} NoLowerScore(w: u64, top: u64, exitWeight: u64, params: PathAwareParams)
    requires w <= top
    ensures NeutralEntryScore(w, exitWeight, params) <= NeutralEntryScore(top, exitWeight, params)
  {
    var x := AtLeastOne(exitWeight);
    MulMonotone(AtLeastOne(w), AtLeastOne(top), x, x);
    NeutralMonotone(WeightProduct(w, exitWeight), WeightProduct(top, exitWeight), params);
  }

  /** A lighter weight that the path-aware product cannot tell from `top`: zero against one,
      or a product that saturates. */
  predicate Clamped(w: u64, top: u64, exitWeight: u64) {
    w < top && ((w == 0 && top == 1) || AtLeastOne(w) * AtLeastOne(exitWeight) >= U64_MAX)
  }

  lemma ClampedIff(w: u64, top: u64, exitWeight: u64)
    requires w < top
    ensures WeightProduct(w, exitWeight) <= WeightProduct(top, exitWeight)
    ensures Clamped(w, top, exitWeight) <==> WeightProduct(w, exitWeight) == WeightProduct(top, exitWeight)
  {
    var x := AtLeastOne(exitWeight);
    MulMonotone(AtLeastOne(w), AtLeastOne(top), x, x);
    if AtLeastOne(w) < AtLeastOne(top) {
      MulMonotone(AtLeastOne(w) + 1, AtLeastOne(top), x, x);
      assert (AtLeastOne(w) + 1) * x == AtLeastOne(w) * x + x;
    }
  }

  /** With enough resolution, as the production parameters have, only clamping confuses. */
  lemma {:induction false} ConfusedIffClamped(w: u64, top: u64, exitWeight: u64, params: PathAwareParams)
    requires EnoughResolution(params)
    ensures Confused(w, top, exitWeight, params) <==> Clamped(w, top, exitWeight)
  {
    if w < top {
      NeutralStrictIff(params);
      ClampedIff(w, top, exitWeight);
    }
  }

  function PickPermitted(permitted: seq<VerifiedEntry>): (k: nat)
    requires permitted != []
    ensures k < |permitted|
  {
    var all := PreferClientContinent(NoTable, Options(permitted), None);
    PreferenceInRange(NoTable, Options(permitted), None);
    assert FirstMin(EntryRanking(Options(permitted), all), RankCmp) < |permitted|;
    PickEntry(NoTable, Options(permitted), None).value
  }

  /** Every ranked entry carries its no-signal score and its id. */
  lemma {:induction false} NeutralRanking(entries: seq<VerifiedEntry>, exit: VerifiedExit, policy: CircuitPolicy,
                                          rtt: EntryRtt, sig: Signal)
    requires NoEntrySignal(Permitted(entries, exit, policy), exit, rtt, sig)
    ensures var (permitted, t) := (Permitted(entries, exit, policy), RankedEntries(entries, exit, policy, rtt, sig));
            forall m :: 0 <= m < |permitted| ==>
              && t[m].item == permitted[m] && t[m].tie == permitted[m].exitId
              && t[m].score == NeutralEntryScore(permitted[m].weight, exit.weight, sig.params)
  {
    var permitted := Permitted(entries, exit, policy);
    assert forall m :: 0 <= m < |permitted| ==> permitted[m] in permitted;
  }

  /** The raw-weight pick has the top weight, and the smallest id among the equally heavy. */
  lemma PickIsTop(permitted: seq<VerifiedEntry>)
    requires permitted != []
    ensures var k := PickPermitted(permitted);
            forall m :: 0 <= m < |permitted| ==>
              Preferred(permitted[k].weight, permitted[k].exitId, k, permitted[m].weight, permitted[m].exitId, m)
  {
    var all := PreferClientContinent(NoTable, Options(permitted), None);
    forall m | 0 <= m < |permitted|
      ensures var k := PickPermitted(permitted);
              Preferred(permitted[k].weight, permitted[k].exitId, k, permitted[m].weight, permitted[m].exitId, m)
    {
      PickEntryBest(NoTable, Options(permitted), None, m);
    }
  }

  /** No entry that the no-signal score confuses with the one at `k` comes before it by id,
      or by index among equal ids. */
  ghost predicate NoneConfused(permitted: seq<VerifiedEntry>, k: nat, exitWeight: u64, params: PathAwareParams)
    requires k < |permitted|
  {
    forall m :: 0 <= m < |permitted| ==> FreeOf(permitted, k, m, exitWeight, params)
  }

  predicate FreeOf(permitted: seq<VerifiedEntry>, k: nat, m: nat, exitWeight: u64, params: PathAwareParams)
    requires k < |permitted| && m < |permitted|
  {
    var (e, f) := (permitted[k], permitted[m]);
    Confused(f.weight, e.weight, exitWeight, params) ==>
      CmpBytes(e.exitId, f.exitId) == Less || (e.exitId == f.exitId && k <= m)
  }

  /** The ranking carries the entries with their no-signal scores, and raw weight prefers `k`. */
  ghost predicate NeutralFrom(t: seq<Candidate<VerifiedEntry>>, permitted: seq<VerifiedEntry>, k: nat,
                              exitWeight: u64, params: PathAwareParams)
  {
    && k < |t| == |permitted|
    && (forall m :: 0 <= m < |t| ==>
          && t[m].item == permitted[m] && t[m].tie == permitted[m].exitId
          && t[m].score == NeutralEntryScore(permitted[m].weight, exitWeight, params))
    && (forall m :: 0 <= m < |t| ==>
          Preferred(permitted[k].weight, permitted[k].exitId, k, permitted[m].weight, permitted[m].exitId, m))
  }

  /** The raw-weight winner at `k` comes before `m` by score too, unless confused with it. */
  lemma {:induction false} PrecedesIff(t: seq<Candidate<VerifiedEntry>>, permitted: seq<VerifiedEntry>, k: nat, m: nat,
                                       exitWeight: u64, params: PathAwareParams)
    requires NeutralFrom(t, permitted, k, exitWeight, params) && m < |t|
    ensures Precedes(t, k, m) <==> FreeOf(permitted, k, m, exitWeight, params)
  {
    NoLowerScore(permitted[m].weight, permitted[k].weight, exitWeight, params);
  }

  /** The winner equals the item at `k` only when it stands there: an equal item comes later. */
  lemma {:induction false} SameBest(t: seq<Candidate<VerifiedEntry>>, permitted: seq<VerifiedEntry>, k: nat,
                                    exitWeight: u64, params: PathAwareParams)
    requires NeutralFrom(t, permitted, k, exitWeight, params)
    ensures Best(t).item == permitted[k] <==> FirstMin(t, RankCmp) == k
  {
    var f := FirstMin(t, RankCmp);
    BestPosition(t, k);
    LexAntisymmetric(CmpByte, t[k].tie, t[k].tie);
    if permitted[f] == permitted[k] {
      assert Preferred(permitted[k].weight, permitted[k].exitId, k, permitted[f].weight, permitted[f].exitId, f);
    }
  }

  lemma {:induction false} BestIffNoneConfused(t: seq<Candidate<VerifiedEntry>>, permitted: seq<VerifiedEntry>, k: nat,
                                               exitWeight: u64, params: PathAwareParams)
    requires NeutralFrom(t, permitted, k, exitWeight, params)
    ensures Best(t).item == permitted[k] <==> NoneConfused(permitted, k, exitWeight, params)
  {
    forall m | 0 <= m < |t| ensures Precedes(t, k, m) <==> FreeOf(permitted, k, m, exitWeight, params) {
      PrecedesIff(t, permitted, k, m, exitWeight, params);
    }
    BestPositionIff(t, k);
    SameBest(t, permitted, k, exitWeight, params);
  }

  /** Without signal, previous entry or continent, on any parameters, ids and weights, the
      entry pick equals the path-aware selection exactly when no lighter permitted entry that
      the score confuses with the pick comes before it by id, or by index on an equal id. */
  lemma {:induction false} PickEntryAgreesIff(entries: seq<VerifiedEntry>, exit: VerifiedExit, policy: CircuitPolicy,
                                              rtt: EntryRtt, sig: Signal)
    requires Permitted(entries, exit, policy) != []
    requires NoEntrySignal(Permitted(entries, exit, policy), exit, rtt, sig)
    ensures var permitted := Permitted(entries, exit, policy);
            var k := PickPermitted(permitted);
            SelectEntry(entries, exit, policy, rtt, sig, None) == Some(permitted[k]) <==>
            NoneConfused(permitted, k, exit.weight, sig.params)
  {
    var permitted := Permitted(entries, exit, policy);
    var t := RankedEntries(entries, exit, policy, rtt, sig);
    NeutralRanking(entries, exit, policy, rtt, sig);
    PickIsTop(permitted);
    BestIffNoneConfused(t, permitted, PickPermitted(permitted), exit.weight, sig.params);
    SelectsBest(entries, exit, policy, rtt, sig);
  }

  lemma {:induction false} SelectsBest(entries: seq<VerifiedEntry>, exit: VerifiedExit, policy: CircuitPolicy,
                                       rtt: EntryRtt, sig: Signal)
    requires Permitted(entries, exit, policy) != []
    ensures var t := RankedEntries(entries, exit, policy, rtt, sig);
            SelectEntry(entries, exit, policy, rtt, sig, None) == Some(Best(t).item)
    ensures SelectEntry(entries, exit, policy, rtt, sig, None).value in Permitted(entries, exit, policy)
  {
    assert Best(RankedEntries(entries, exit, policy, rtt, sig)) in RankedEntries(entries, exit, policy, rtt, sig);
  }

  /** In particular it agrees, with enough resolution, whenever every weight is positive and
      every product fits. */
  lemma {:induction false} PickEntryAgrees(entries: seq<VerifiedEntry>, exit: VerifiedExit, policy: CircuitPolicy,
                                           rtt: EntryRtt, sig: Signal)
    requires EnoughResolution(sig.params)
    requires Permitted(entries, exit, policy) != []
    requires NoEntrySignal(Permitted(entries, exit, policy), exit, rtt, sig)
    requires PlainWeights(Permitted(entries, exit, policy), exit.weight)
    ensures var permitted := Permitted(entries, exit, policy);
            SelectEntry(entries, exit, policy, rtt, sig, None) == Some(permitted[PickPermitted(permitted)])
  {
    PickEntryAgreesIff(entries, exit, policy, rtt, sig);
    var permitted := Permitted(entries, exit, policy);
    NoneConfusedWhenPlain(permitted, PickPermitted(permitted), exit.weight, sig.params);
  }

  /** Positive weights whose products with the exit's fit in u64. */
  ghost predicate PlainWeights(permitted: seq<VerifiedEntry>, exitWeight: u64) {
    forall e :: e in permitted ==> e.weight >= 1 && e.weight * AtLeastOne(exitWeight) <= U64_MAX
  }

  lemma {:induction false} NoneConfusedWhenPlain(permitted: seq<VerifiedEntry>, k: nat, exitWeight: u64,
                                                 params: PathAwareParams)
    requires EnoughResolution(params) && k < |permitted| && PlainWeights(permitted, exitWeight)
    ensures NoneConfused(permitted, k, exitWeight, params)
  {
    forall m | 0 <= m < |permitted| ensures FreeOf(permitted, k, m, exitWeight, params) {
      var (w, top) := (permitted[m].weight, permitted[k].weight);
      assert permitted[m] in permitted && permitted[k] in permitted;
      ConfusedIffClamped(w, top, exitWeight, params);
      if w < top {
        MulMonotone(w + 1, top, AtLeastOne(exitWeight), AtLeastOne(exitWeight));
        assert (w + 1) * AtLeastOne(exitWeight) == w * AtLeastOne(exitWeight) + AtLeastOne(exitWeight);
      }
    }
  }

  // ---- the continent partition ---------------------------------------------------------------

  /** The permitted entries the continent preference leaves, in order. */
  function Partition(table: CountryTable, permitted: seq<VerifiedEntry>, client: Option<Continent>): seq<VerifiedEntry>
  {
    var indices := PreferClientContinent(table, Options(permitted), client);
    PreferenceInRange(table, Options(permitted), client);
    seq(|indices|, k requires 0 <= k < |indices| => permitted[indices[k]])
  }

  /** With a continent, the pick is the location-blind pick over the partition. */
  lemma {:induction false} PartitionPick(table: CountryTable, permitted: seq<VerifiedEntry>, client: Option<Continent>)
    requires permitted != []
    ensures var local := Partition(table, permitted, client);
            var pick := PickEntry(table, Options(permitted), client);
            && local != [] && pick.Some? && pick.value < |permitted|
            && permitted[pick.value] == local[PickPermitted(local)]
  {
    var indices := PreferClientContinent(table, Options(permitted), client);
    PreferenceInRange(table, Options(permitted), client);
    PartitionNonEmpty(table, permitted, client);
    var local := Partition(table, permitted, client);
    PreferenceInRange(NoTable, Options(local), None);
    var s := EntryRanking(Options(permitted), indices);
    var t := EntryRanking(Options(local), PreferClientContinent(NoTable, Options(local), None));
    SamePosition(s, t);
  }

  lemma {:induction false} PartitionNonEmpty(table: CountryTable, permitted: seq<VerifiedEntry>,
                                             client: Option<Continent>)
    requires permitted != []
    ensures PreferClientContinent(table, Options(permitted), client) != []
  {
  }

  lemma {:induction false} AllPermitted(entries: seq<VerifiedEntry>, exit: VerifiedExit, policy: CircuitPolicy)
    requires forall e :: e in entries ==> policy.Permits(e, exit)
    ensures Permitted(entries, exit, policy) == entries
  {
    if entries != [] {
      assert entries == [entries[0]] + entries[1..];
      AllPermitted(entries[1..], exit, policy);
    }
  }

  lemma {:induction false} PartitionWithin(table: CountryTable, permitted: seq<VerifiedEntry>,
                                           client: Option<Continent>)
    ensures forall e :: e in Partition(table, permitted, client) ==> e in permitted
  {
    PreferenceInRange(table, Options(permitted), client);
  }

  lemma {:induction false} PartitionPermitted(table: CountryTable, entries: seq<VerifiedEntry>, exit: VerifiedExit,
                                              policy: CircuitPolicy, client: Option<Continent>)
    ensures var local := Partition(table, Permitted(entries, exit, policy), client);
            Permitted(local, exit, policy) == local
  {
    var permitted := Permitted(entries, exit, policy);
    PartitionWithin(table, permitted, client);
    PermittedExact(entries, exit, policy);
    AllPermitted(Partition(table, permitted, client), exit, policy);
  }

  /** The documented agreement, with the continent preference: over the permitted entries the
      pick is the no-signal path-aware selection restricted to the partition exactly when, in
      the partition, no lighter entry that the score confuses with the pick comes before it by
      id, or by index on an equal id. Entries outside the partition do not matter. */
  lemma {:induction false} PartitionAgreesIff(table: CountryTable, entries: seq<VerifiedEntry>,
                                              client: Option<Continent>,
                                              exit: VerifiedExit, policy: CircuitPolicy, rtt: EntryRtt, sig: Signal)
    requires Permitted(entries, exit, policy) != []
    requires NoEntrySignal(Partition(table, Permitted(entries, exit, policy), client), exit, rtt, sig)
    ensures var permitted := Permitted(entries, exit, policy);
            var local := Partition(table, permitted, client);
            var pick := PickEntry(table, Options(permitted), client);
            && pick.Some? && pick.value < |permitted| && local != []
            && permitted[pick.value] == local[PickPermitted(local)]
            && (SelectEntry(local, exit, policy, rtt, sig, None) == Some(permitted[pick.value]) <==>
                NoneConfused(local, PickPermitted(local), exit.weight, sig.params))
  {
    var permitted := Permitted(entries, exit, policy);
    PartitionPick(table, permitted, client);
    PartitionPermitted(table, entries, exit, policy, client);
    PickEntryAgreesIff(Partition(table, permitted, client), exit, policy, rtt, sig);
  }

  /** In particular, with enough resolution, when the weights of the partition are positive
      and their products fit. */
  lemma {:induction false} PartitionAgrees(table: CountryTable, entries: seq<VerifiedEntry>, client: Option<Continent>,
                                           exit: VerifiedExit, policy: CircuitPolicy, rtt: EntryRtt, sig: Signal)
    requires EnoughResolution(sig.params)
    requires Permitted(entries, exit, policy) != []
    requires NoEntrySignal(Partition(table, Permitted(entries, exit, policy), client), exit, rtt, sig)
    requires PlainWeights(Partition(table, Permitted(entries, exit, policy), client), exit.weight)
    ensures var permitted := Permitted(entries, exit, policy);
            var pick := PickEntry(table, Options(permitted), client);
            && pick.Some? && pick.value < |permitted|
            && SelectEntry(Partition(table, permitted, client), exit, policy, rtt, sig, None) ==
               Some(permitted[pick.value])
  {
    var local := Partition(table, Permitted(entries, exit, policy), client);
    PartitionAgreesIff(table, entries, client, exit, policy, rtt, sig);
    NoneConfusedWhenPlain(local, PickPermitted(local), exit.weight, sig.params);
  }

  /** With these parameters the documented agreement holds on every input whose weights in
      the partition are positive and fit. */
  ghost predicate AgreementLaw(params: PathAwareParams) {
    forall table: CountryTable, entries: seq<VerifiedEntry>, client: Option<Continent>, exit: VerifiedExit,
           policy: CircuitPolicy, rtt: EntryRtt, sig: Signal | sig.params == params ::
      Permitted(entries, exit, policy) != [] &&
      NoEntrySignal(Partition(table, Permitted(entries, exit, policy), client), exit, rtt, sig) &&
      PlainWeights(Partition(table, Permitted(entries, exit, policy), client), exit.weight) ==>
        PicksAgree(table, entries, client, exit, policy, rtt, sig)
  }

  predicate PicksAgree(table: CountryTable, entries: seq<VerifiedEntry>, client: Option<Continent>, exit: VerifiedExit,
                       policy: CircuitPolicy, rtt: EntryRtt, sig: Signal)
  {
    var permitted := Permitted(entries, exit, policy);
    var pick := PickEntry(table, Options(permitted), client);
    && pick.Some? && pick.value < |permitted|
    && SelectEntry(Partition(table, permitted, client), exit, policy, rtt, sig, None) == Some(permitted[pick.value])
  }

  /** On plain weights the agreement holds exactly when the parameters have enough resolution. */
  lemma AgreementLawIff(params: PathAwareParams)
    ensures AgreementLaw(params) <==> EnoughResolution(params)
  {
    if EnoughResolution(params) {
      forall table: CountryTable, entries: seq<VerifiedEntry>, client: Option<Continent>, exit: VerifiedExit,
             policy: CircuitPolicy, rtt: EntryRtt, sig: Signal
        | sig.params == params && Permitted(entries, exit, policy) != [] &&
          NoEntrySignal(Partition(table, Permitted(entries, exit, policy), client), exit, rtt, sig) &&
          PlainWeights(Partition(table, Permitted(entries, exit, policy), client), exit.weight)
        ensures PicksAgree(table, entries, client, exit, policy, rtt, sig)
      {
        PartitionAgrees(table, entries, client, exit, policy, rtt, sig);
      }
    } else {
      var d := LowResolutionDiffers(NoTable, None, params);
      var entries := TwoOf(1, d, 2, d + 1);
      assert PlainWeights(entries, SampleExit().weight);
      var sig := Signal(None, 0, params);
      assert !PicksAgree(NoTable, entries, None, SampleExit(), CircuitPolicy(false), NoEntryRtt, sig);
    }
  }

  // ---- inputs on which the two picks differ ----------------------------------------------------

  function NoEntryRtt(e: VerifiedEntry): Option<u32> {
    None
  }

  /** An entry in DE and the exit it is offered for, in NL, of weight 1. */
  function SampleEntry(tag: byte, weight: u64): VerifiedEntry {
    EntryOf(BareNode(tag, tag, "DE").(weight := weight))
  }

  function SampleExit(): VerifiedExit {
    ExitOf((key, x) => false, seq(32, _ => 0), BareNode(3, 3, "NL"))
  }

  function TwoOf(a: byte, wa: u64, b: byte, wb: u64): (r: seq<VerifiedEntry>)
    ensures |r| == 2 && r[0].weight == wa && r[1].weight == wb
  {
    [SampleEntry(a, wa), SampleEntry(b, wb)]
  }

  lemma TwoPermitted(a: byte, wa: u64, b: byte, wb: u64)
    requires a != 3 && b != 3
    ensures Permitted(TwoOf(a, wa, b, wb), SampleExit(), CircuitPolicy(false)) == TwoOf(a, wa, b, wb)
  {
    var entries, exit := TwoOf(a, wa, b, wb), SampleExit();
    DifferentCountries();
    assert entries[0].exitId[0] != exit.exitId[0] && entries[1].exitId[0] != exit.exitId[0];
    AllPermitted(entries, exit, CircuitPolicy(false));
  }

  /** Both entries are in one country, so no continent separates them. */
  lemma {:induction false} TwoPartition(table: CountryTable, client: Option<Continent>, entries: seq<VerifiedEntry>)
    requires |entries| == 2 && entries[0].country == entries[1].country
    ensures PreferClientContinent(table, Options(entries), client) == [0, 1]
    ensures Partition(table, entries, client) == entries
  {
    var options := Options(entries);
    PreferenceNarrows(table, options, client);
    var r := PreferClientContinent(table, options, client);
    if AnyLocal(table, options, client) {
      var m :| 0 <= m < |options| && table(options[m].country) == client;
    }
    assert 0 in r && 1 in r && forall k :: 0 <= k < |r| ==> r[k] in r;
    OneOfEach(r);
  }

  lemma {:induction false} AtLeastIndex(r: seq<nat>, k: nat)
    requires Increasing(r) && k < |r|
    ensures k <= r[k]
  {
    if k > 0 {
      AtLeastIndex(r, k - 1);
    }
  }

  lemma OneOfEach(r: seq<nat>)
    requires Increasing(r) && 0 in r && 1 in r && forall k :: 0 <= k < |r| ==> r[k] < 2
    ensures r == [0, 1]
  {
    AtLeastIndex(r, |r| - 1);
    assert |r| != 1;
    assert r[0] < r[1];
  }

  /** The heavier one at index 1 wins by raw weight. */
  lemma {:induction false} TwoPick(table: CountryTable, client: Option<Continent>, entries: seq<VerifiedEntry>)
    requires |entries| == 2 && entries[0].country == entries[1].country && entries[0].weight < entries[1].weight
    ensures PickEntry(table, Options(entries), client) == Some(1)
  {
    TwoPartition(table, client, entries);
    PickEntryBest(table, Options(entries), client, 1);
  }

  /** The entry pick takes the heavier of the two, the path-aware selection the lighter. */
  ghost predicate PicksDiffer(table: CountryTable, client: Option<Continent>, entries: seq<VerifiedEntry>,
                              params: PathAwareParams)
  {
    var (exit, policy) := (SampleExit(), CircuitPolicy(false));
    && |entries| == 2 && Permitted(entries, exit, policy) == entries == Partition(table, entries, client)
    && PickEntry(table, Options(entries), client) == Some(1)
    && SelectEntry(entries, exit, policy, NoEntryRtt, Signal(None, 0, params), None) == Some(entries[0])
  }

  /** The lighter of two confused entries wins by score, when its id is no larger. */
  lemma {:induction false} LighterSelected(entries: seq<VerifiedEntry>, exit: VerifiedExit, policy: CircuitPolicy,
                                           sig: Signal)
    requires |entries| == 2 && Permitted(entries, exit, policy) == entries && sig.advisory.None?
    requires Confused(entries[0].weight, entries[1].weight, exit.weight, sig.params)
    requires CmpBytes(entries[1].exitId, entries[0].exitId) != Less && PickPermitted(entries) == 1
    ensures SelectEntry(entries, exit, policy, NoEntryRtt, sig, None) == Some(entries[0])
  {
    PickEntryAgreesIff(entries, exit, policy, NoEntryRtt, sig);
    assert !FreeOf(entries, 1, 0, exit.weight, sig.params);
    SelectsBest(entries, exit, policy, NoEntryRtt, sig);
  }

  lemma TagOrder(a: byte, wa: u64, b: byte, wb: u64)
    requires a <= b
    ensures CmpBytes(TwoOf(a, wa, b, wb)[1].exitId, TwoOf(a, wa, b, wb)[0].exitId) != Less
  {
    var (x, y) := (TwoOf(a, wa, b, wb)[0].exitId, TwoOf(a, wa, b, wb)[1].exitId);
    assert x[0] == a && y[0] == b;
    if a == b {
      assert x == y;
      LexAntisymmetric(CmpByte, y, x);
    }
  }

  lemma {:induction false} ConfusedPairDiffers(table: CountryTable, client: Option<Continent>, params: PathAwareParams,
                                               a: byte, wa: u64, b: byte, wb: u64)
    requires a <= b && a != 3 && b != 3 && Confused(wa, wb, 1, params)
    ensures PicksDiffer(table, client, TwoOf(a, wa, b, wb), params)
  {
    var entries := TwoOf(a, wa, b, wb);
    TwoPermitted(a, wa, b, wb);
    TwoPartition(table, client, entries);
    TwoPick(table, client, entries);
    TwoPick(NoTable, None, entries);
    TagOrder(a, wa, b, wb);
    LighterSelected(entries, SampleExit(), CircuitPolicy(false), Signal(None, 0, params));
  }

  /** Weights 0 and 1, the lighter entry with the smaller id: the path-aware selection raises
      both to 1. */
  lemma {:induction false} ClampedWeightDiffers(table: CountryTable, client: Option<Continent>)
    ensures PicksDiffer(table, client, TwoOf(1, 0, 2, 1), DEFAULT_PARAMS)
  {
    ConfusedIffClamped(0, 1, 1, DEFAULT_PARAMS);
    ConfusedPairDiffers(table, client, DEFAULT_PARAMS, 1, 0, 2, 1);
  }

  /** The same with one id on both, the lighter listed first. */
  lemma {:induction false} SharedIdDiffers(table: CountryTable, client: Option<Continent>)
    ensures PicksDiffer(table, client, TwoOf(1, 0, 1, 1), DEFAULT_PARAMS)
  {
    ConfusedIffClamped(0, 1, 1, DEFAULT_PARAMS);
    ConfusedPairDiffers(table, client, DEFAULT_PARAMS, 1, 0, 1, 1);
  }

  /** With too little resolution two adjacent positive weights score alike. */
  lemma {:induction false} LowResolutionDiffers(table: CountryTable, client: Option<Continent>,
                                                params: PathAwareParams)
    returns (d: u64)
    requires !EnoughResolution(params)
    ensures 0 < d < U64_MAX && PicksDiffer(table, client, TwoOf(1, d, 2, d + 1), params)
  {
    d := CollapsePoint(params);
    ConfusedPairDiffers(table, client, params, 1, d, 2, d + 1);
  }
}
