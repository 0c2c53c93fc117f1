/** The laws the selection documents: it only biases the order, it falls back to the
    weight pick, it cannot flap, and it does not depend on the order of its input. */
module PathAwareLaws {
  import opened Wrappers
  import opened Machine
  import opened Order
  import opened Directory
  import opened Circuits
  import opened Ranking
  import opened PathScore
  import opened PathAware

  lemma ScoresFit(dir: VerifiedDirectory, pairs: seq<Pair>, rtt: NodeRtt, sig: Signal)
    requires InRange(dir, pairs)
    ensures forall c :: c in Ranked(dir, pairs, rtt, sig) ==>
              c.score <= U128_MAX && c.item in pairs && c == CircuitCandidate(dir, rtt, sig, c.item)
  {
  }

  /** Whatever the advisory, the RTTs and the history say, the result is an offered pair,
      and there is one whenever a pair is offered. */
  lemma OnlyBiasesTheOrder(dir: VerifiedDirectory, pairs: seq<Pair>, rtt: NodeRtt, sig: Signal, prev: Option<(Id, Id)>)
    requires InRange(dir, pairs)
    ensures var r := SelectCircuit(dir, pairs, rtt, sig, prev);
            (r.Some? <==> pairs != []) && (r.Some? ==> r.value in pairs)
  {
    ScoresFit(dir, pairs, rtt, sig);
  }

  // ---- fallback -----------------------------------------------------------------

  /** No client RTT, and every advisory leg absent or stale. */
  predicate NoSignal(dir: VerifiedDirectory, pairs: seq<Pair>, rtt: NodeRtt, sig: Signal)
    requires InRange(dir, pairs)
  {
    forall p :: p in pairs ==>
      && rtt(dir.nodes[p.0]).None?
      && FreshLeg(sig, dir.nodes[p.0].relay.relayId, dir.nodes[p.1].exit.exitId).None?
  }

  lemma {:induction false} Fallback(dir: VerifiedDirectory, pairs: seq<Pair>, rtt: NodeRtt, sig: Signal)
    requires InRange(dir, pairs) && NoSignal(dir, pairs, rtt, sig)
    requires EnoughResolution(sig.params)
    ensures SelectCircuit(dir, pairs, rtt, sig, None) == PickByWeight(dir, pairs)
  {
    if pairs != [] {
      var s, t := ByWeight(dir, pairs), Ranked(dir, pairs, rtt, sig);
      NeutralStrictIff(sig.params);
      forall k | 0 <= k < |pairs| ensures t[k].score == NeutralScore(s[k].score, sig.params) {
        assert pairs[k] in pairs;
      }
      SamePosition(s, t);
    }
  }

  /** The production parameters satisfy the law. */
  lemma {:induction false} DefaultFallback(dir: VerifiedDirectory, pairs: seq<Pair>, rtt: NodeRtt, sig: Signal)
    requires InRange(dir, pairs) && NoSignal(dir, pairs, rtt, sig) && sig.params == DEFAULT_PARAMS
    ensures SelectCircuit(dir, pairs, rtt, sig, None) == PickByWeight(dir, pairs)
  {
    Fallback(dir, pairs, rtt, sig);
  }

  /** With these parameters the fallback law holds on every input. */
  ghost predicate FallbackLaw(params: PathAwareParams) {
    forall dir: VerifiedDirectory, pairs: seq<Pair>, rtt: NodeRtt, sig: Signal ::
      InRange(dir, pairs) && NoSignal(dir, pairs, rtt, sig) && sig.params == params ==>
        SelectCircuit(dir, pairs, rtt, sig, None) == PickByWeight(dir, pairs)
  }

  /** A node whose ids are one repeated byte. */
  function SampleNode(tag: byte, weight: u64): (n: NodeEntry)
    ensures n.weight == weight && n.relay.relayId[0] == tag
  {
    BareNode(tag, tag, "").(weight := weight)
  }

  function NoRtt(n: NodeEntry): Option<u32> {
    None
  }

  lemma BestOfTwo<T(!new)>(s: seq<Candidate<T>>)
    requires |s| == 2
    ensures Best(s) == if RankCmp(s[0], s[1]) == Greater then s[1] else s[0]
  {
    assert s[..1] == [s[0]];
  }

  const TWO_PAIRS: seq<Pair> := [(0, 2), (1, 2)]

  /** Three nodes, two of them entries whose weights are `a` and `b`. */
  ghost predicate TwoEntries(dir: VerifiedDirectory, a: u64, b: u64) {
    dir.nodes == [SampleNode(1, a), SampleNode(2, b), SampleNode(3, 1)]
  }

  lemma ByWeightOfTwo(dir: VerifiedDirectory, a: u64, b: u64)
    requires TwoEntries(dir, a, b) && 0 < a < b
    ensures PickByWeight(dir, TWO_PAIRS) == Some((1, 2))
  {
    BestOfTwo(ByWeight(dir, TWO_PAIRS));
  }

  lemma {:induction false} NeutralOfTwo(dir: VerifiedDirectory, a: u64, b: u64, params: PathAwareParams)
    requires TwoEntries(dir, a, b) && 0 < a < b && NeutralScore(a, params) == NeutralScore(b, params)
    ensures SelectCircuit(dir, TWO_PAIRS, NoRtt, Signal(None, 0, params), None) == Some((0, 2))
  {
    var ranked := Ranked(dir, TWO_PAIRS, NoRtt, Signal(None, 0, params));
    BestOfTwo(ranked);
    assert ranked[0].score == NeutralScore(a, params) && ranked[1].score == NeutralScore(b, params);
    assert ranked[0].tie[0] == 1 && ranked[1].tie[0] == 2;
  }

  /** Too little resolution breaks the law: two entries whose weights differ by one score
      alike, and the lighter one wins on its identifier. */
  lemma {:induction false} FallbackFails(params: PathAwareParams) returns (dir: VerifiedDirectory)
    requires !EnoughResolution(params)
    ensures InRange(dir, TWO_PAIRS)
    ensures SelectCircuit(dir, TWO_PAIRS, NoRtt, Signal(None, 0, params), None) != PickByWeight(dir, TWO_PAIRS)
  {
    var d := CollapsePoint(params);
    dir := VerifiedDirectory(seq(32, _ => 0), [SampleNode(1, d), SampleNode(2, d + 1), SampleNode(3, 1)], 0, 0, 0, 0);
    ByWeightOfTwo(dir, d, d + 1);
    NeutralOfTwo(dir, d, d + 1, params);
  }

  /** The fallback law holds on every input exactly when the parameters satisfy
      1_000_000 * K >= K + 2 * neutral. */
  lemma FallbackLawIff(params: PathAwareParams)
    ensures FallbackLaw(params) <==> EnoughResolution(params)
  {
    if EnoughResolution(params) {
      forall dir: VerifiedDirectory, pairs: seq<Pair>, rtt: NodeRtt, sig: Signal
        | InRange(dir, pairs) && NoSignal(dir, pairs, rtt, sig) && sig.params == params
        ensures SelectCircuit(dir, pairs, rtt, sig, None) == PickByWeight(dir, pairs)
      {
        Fallback(dir, pairs, rtt, sig);
      }
    } else {
      var dir := FallbackFails(params);
      assert NoSignal(dir, TWO_PAIRS, NoRtt, Signal(None, 0, params));
    }
  }

  // ---- hysteresis ------------------------------------------------------------------

  /** Everything one selection reads, but for the circuit in use. */
  datatype Step = Step(dir: VerifiedDirectory, pairs: seq<Pair>, rtt: NodeRtt, sig: Signal) {
    predicate Valid() {
      InRange(dir, pairs)
    }

    function Offer(): seq<Candidate<Pair>>
      requires Valid()
    {
      Ranked(dir, pairs, rtt, sig)
    }

    /** The ids of the selected circuit, fed back as the next circuit in use. */
    function Next(prev: Option<(Id, Id)>): Option<(Id, Id)>
      requires Valid()
    {
      match SelectCircuit(dir, pairs, rtt, sig, prev)
      case None => None
      case Some(p) =>
        OnlyBiasesTheOrder(dir, pairs, rtt, sig, prev);
        Some(CircuitIds(dir, p))
    }

    /** The circuit in use as this step sees it: gone, or the first pair with its ids. */
    function Incumbent(ids: (Id, Id)): Option<Candidate<Pair>>
      requires Valid()
    {
      FindTie(Offer(), Joined(ids))
    }
  }

  function Run(steps: seq<Step>, prev: Option<(Id, Id)>): Option<(Id, Id)>
    requires forall st :: st in steps ==> st.Valid()
  {
    if steps == [] then prev
    else steps[|steps| - 1].Next(Run(steps[..|steps| - 1], prev))
  }

  /** One step in terms of its offer: the best pair, or the incumbent when it is offered,
      not freshly degraded and not beaten beyond the margin. */
  lemma NextExact(st: Step, prev: Option<(Id, Id)>)
    requires st.Valid() && st.pairs != []
    ensures st.Next(prev).Some?
    ensures var inc := if prev.None? then None else st.Incumbent(prev.value);
            Joined(st.Next(prev).value) ==
            if inc.Some? && !inc.value.degraded &&
               Best(st.Offer()).score <= ChallengerBar(inc.value.score, st.sig.params.switchMarginPct)
            then Joined(prev.value) else Best(st.Offer()).tie
  {
    ScoresFit(st.dir, st.pairs, st.rtt, st.sig);
  }

  /** With unchanged inputs, selecting again changes nothing: one change at most. */
  lemma {:induction false} Idempotent(st: Step, prev: Option<(Id, Id)>)
    requires st.Valid()
    ensures st.Next(st.Next(prev)) == st.Next(prev)
  {
    if st.pairs != [] {
      NextExact(st, prev);
      NextExact(st, st.Next(prev));
      TieBreakIsThenWith(st.Next(prev).value, st.Next(st.Next(prev)).value);
    }
  }

  lemma {:induction false} NoFlapping(st: Step, prev: Option<(Id, Id)>, steps: seq<Step>)
    requires st.Valid() && steps != [] && forall s :: s in steps ==> s == st
    ensures Run(steps, prev) == st.Next(prev)
  {
    var init := steps[..|steps| - 1];
    assert steps[|steps| - 1] in steps;
    assert forall s :: s in init ==> s in steps;
    if init != [] {
      NoFlapping(st, prev, init);
      Idempotent(st, prev);
    }
  }

  /** The documented rule lets a step leave the circuit `p`: it is gone, its leg is freshly
      degraded, or it is beaten by more than the margin. */
  ghost predicate MayLeave(st: Step, p: (Id, Id))
    requires st.Valid()
  {
    Leavable(st.Offer(), st.Incumbent(p), st.sig.params.switchMarginPct)
  }

  /** The step leaves it, by the machine's bar. */
  ghost predicate Leaves(st: Step, p: (Id, Id))
    requires st.Valid()
  {
    ScoresInLimit(st);
    Left(st.Offer(), st.Incumbent(p), st.sig.params.switchMarginPct)
  }

  lemma {:induction false} LeavesMeans(st: Step, p: (Id, Id))
    requires st.Valid()
    ensures MayLeave(st, p) ==> Leaves(st, p)
    ensures st.sig.params.switchMarginPct <= U64_MAX - 100 ==> (Leaves(st, p) <==> MayLeave(st, p))
  {
    ScoresInLimit(st);
    LeftMeans(st.Offer(), st.Incumbent(p), st.sig.params.switchMarginPct);
  }

  lemma {:induction false} ScoresInLimit(st: Step)
    requires st.Valid()
    ensures forall c :: c in st.Offer() ==> c.score < SCORE_LIMIT
  {
    forall c | c in st.Offer() ensures c.score < SCORE_LIMIT {
      var (e, x) := (st.dir.nodes[c.item.0], st.dir.nodes[c.item.1]);
      ScoreExact(CircuitWeight(e, x), st.rtt(e).GetOr(st.sig.params.neutralRttMs),
                 FreshLeg(st.sig, e.relay.relayId, x.exit.exitId), st.sig.params);
    }
  }

  lemma {:induction false} NextIsChoice(st: Step, p: (Id, Id))
    requires st.Valid() && st.pairs != []
    requires forall c :: c in st.Offer() ==> c.score < SCORE_LIMIT
    ensures st.Next(Some(p)).Some?
    ensures Joined(st.Next(Some(p)).value) == Choose(st.Offer(), st.Incumbent(p), st.sig.params.switchMarginPct).tie
  {
  }

  /** For every margin, a step keeps the circuit in use exactly when it does not leave it, or
      comes back to it as the best pair; leaving goes to the best pair. */
  lemma {:induction false} LeavesIff(st: Step, p: (Id, Id))
    requires st.Valid() && st.pairs != []
    ensures st.Next(Some(p)) == Some(p) <==> !Leaves(st, p) || Best(st.Offer()).tie == Joined(p)
    ensures st.Next(Some(p)) != Some(p) ==>
              st.Next(Some(p)).Some? && Joined(st.Next(Some(p)).value) == Best(st.Offer()).tie
  {
    ScoresInLimit(st);
    NextIsChoice(st, p);
    ChooseLeavesIff(st.Offer(), st.Incumbent(p), Joined(p), st.sig.params.switchMarginPct);
    TieBreakIsThenWith(st.Next(Some(p)).value, p);
  }

  /** With these parameters the documented retention holds on every step: a circuit in use
      that is offered, not freshly degraded and not beaten by more than the margin is kept. */
  ghost predicate RetentionLaw(params: PathAwareParams) {
    forall st: Step, p: (Id, Id) :: st.Valid() && st.sig.params == params && !MayLeave(st, p) ==>
      st.Next(Some(p)) == Some(p)
  }

  /** The top weights, so that no parameters score them zero. */
  lemma TopWeightScores(params: PathAwareParams)
    ensures 0 < NeutralScore(U64_MAX, params) < SCORE_LIMIT
  {
    var (m, d) := (SCORE_SCALE * HalfScore(params), HalfScore(params) + 2 * params.neutralRttMs);
    ScoreExact(U64_MAX, params.neutralRttMs, None, params);
    MulMonotone(d, U64_MAX, 1, m);
    DivMonotone(d, U64_MAX * m, d);
    DivUnique(d, d, 1, 0);
  }

  /** A margin that wraps breaks the rule: of two entries of the top weight the one in use,
      which has the larger id, is left for its equal. */
  lemma {:induction false} RetentionFails(params: PathAwareParams) returns (st: Step, p: (Id, Id))
    requires params.switchMarginPct > U64_MAX - 100
    ensures st.Valid() && st.sig.params == params
    ensures !MayLeave(st, p) && st.Next(Some(p)) != Some(p)
  {
    var nodes := [SampleNode(1, U64_MAX), SampleNode(2, U64_MAX), SampleNode(3, 1)];
    var dir := VerifiedDirectory(seq(32, _ => 0), nodes, 0, 0, 0, 0);
    st := Step(dir, TWO_PAIRS, NoRtt, Signal(None, 0, params));
    p := CircuitIds(dir, (1, 2));
    EqualPair(st);
    TopWeightScores(params);
    WrappedBarLow(st.Offer()[1].score, params.switchMarginPct);
    LeavesIff(st, p);
  }

  /** Two pairs of equal score, the first of them best. */
  lemma {:induction false} EqualPair(st: Step)
    requires TwoEntries(st.dir, U64_MAX, U64_MAX) && st.pairs == TWO_PAIRS && st.rtt == NoRtt && st.sig.advisory.None?
    ensures st.Valid() && |st.Offer()| == 2 && Best(st.Offer()) == st.Offer()[0]
    ensures st.Offer()[0].score == st.Offer()[1].score == NeutralScore(U64_MAX, st.sig.params)
    ensures st.Offer()[0].tie != st.Offer()[1].tie == Joined(CircuitIds(st.dir, (1, 2)))
    ensures st.Incumbent(CircuitIds(st.dir, (1, 2))) == Some(st.Offer()[1]) && !st.Offer()[1].degraded
  {
    assert st.Offer()[0].tie[0] == 1 && st.Offer()[1].tie[0] == 2;
    BestOfTwo(st.Offer());
  }

  /** The documented retention holds on every step exactly when 100 + margin does not wrap. */
  lemma RetentionLawIff(params: PathAwareParams)
    ensures RetentionLaw(params) <==> params.switchMarginPct <= U64_MAX - 100
  {
    if params.switchMarginPct <= U64_MAX - 100 {
      forall st: Step, p: (Id, Id) | st.Valid() && st.sig.params == params && !MayLeave(st, p)
        ensures st.Next(Some(p)) == Some(p)
      {
        LeavesMeans(st, p);
        LeavesIff(st, p);
      }
    } else {
      var st, p := RetentionFails(params);
    }
  }

  /** Over any run, with inputs changing at will, every change of circuit is one the step that
      made it leaves, by the documented rule unless its margin wraps. It goes to that step's
      best pair, or to none when nothing is offered. */
  lemma {:induction false} EveryChangeJustified(steps: seq<Step>, prev: Option<(Id, Id)>, k: nat, p: (Id, Id))
    requires forall st :: st in steps ==> st.Valid()
    requires k < |steps| && Run(steps[..k], prev) == Some(p) && Run(steps[..k + 1], prev) != Some(p)
    ensures Leaves(steps[k], p)
    ensures steps[k].sig.params.switchMarginPct <= U64_MAX - 100 ==> MayLeave(steps[k], p)
    ensures match Run(steps[..k + 1], prev)
            case None => steps[k].pairs == []
            case Some(q) => steps[k].pairs != [] && Joined(q) == Best(steps[k].Offer()).tie
  {
    assert steps[..k + 1][..k] == steps[..k] && steps[k] in steps;
    LeavesMeans(steps[k], p);
    if steps[k].pairs != [] {
      LeavesIff(steps[k], p);
    }
  }

  /** A transient blip cannot flap circuits: while no step leaves it, the circuit in use
      stays, however long the run and however the signal moves. */
  lemma {:induction false} QuietRunStays(steps: seq<Step>, p: (Id, Id))
    requires forall st :: st in steps ==> st.Valid() && !Leaves(st, p)
    ensures Run(steps, Some(p)) == Some(p)
  {
    if steps != [] {
      var init, last := steps[..|steps| - 1], steps[|steps| - 1];
      assert last in steps && forall st :: st in init ==> st in steps;
      QuietRunStays(init, p);
      LeavesIff(last, p);
    }
  }

  // ---- the fallback with a circuit in use ------------------------------------------------

  function PairScore(st: Step, p: Pair): u128
    requires st.Valid() && p in st.pairs
  {
    NeutralScore(CircuitWeight(st.dir.nodes[p.0], st.dir.nodes[p.1]), st.sig.params)
  }

  /** Without signal, a step takes the circuit the weight pick names exactly when the circuit
      in use is gone, is that circuit, or is beaten over the bar on weight alone. */
  lemma {:induction false} FallbackInUseIff(st: Step, p: (Id, Id))
    requires st.Valid() && st.pairs != [] && NoSignal(st.dir, st.pairs, st.rtt, st.sig)
    requires EnoughResolution(st.sig.params)
    ensures PickByWeight(st.dir, st.pairs).Some? && PickByWeight(st.dir, st.pairs).value in st.pairs
    ensures st.Incumbent(p).Some? ==> st.Incumbent(p).value.item in st.pairs
    ensures var pick := PickByWeight(st.dir, st.pairs).value;
            st.Next(Some(p)) == Some(CircuitIds(st.dir, pick)) <==>
            || st.Incumbent(p).None?
            || p == CircuitIds(st.dir, pick)
            || PairScore(st, pick) >
               ChallengerBar(PairScore(st, st.Incumbent(p).value.item), st.sig.params.switchMarginPct)
  {
    Fallback(st.dir, st.pairs, st.rtt, st.sig);
    OnlyBiasesTheOrder(st.dir, st.pairs, st.rtt, st.sig, None);
    var pick := PickByWeight(st.dir, st.pairs).value;
    NeutralOffer(st);
    NextExact(st, Some(p));
    var next := st.Next(Some(p)).value;
    TieBreakIsThenWith(next, p);
    TieBreakIsThenWith(next, CircuitIds(st.dir, pick));
    TieBreakIsThenWith(p, CircuitIds(st.dir, pick));
  }

  /** At the production parameters the law fails with a circuit in use: of two entries of
      weights 100 and 110 the lighter one stays. */
  lemma {:induction false} FallbackInUseFails(dir: VerifiedDirectory)
    requires TwoEntries(dir, 100, 110)
    ensures var sig := Signal(None, 0, DEFAULT_PARAMS);
            && InRange(dir, TWO_PAIRS) && NoSignal(dir, TWO_PAIRS, NoRtt, sig)
            && PickByWeight(dir, TWO_PAIRS) == Some((1, 2))
            && SelectCircuit(dir, TWO_PAIRS, NoRtt, sig, Some(CircuitIds(dir, (0, 2)))) == Some((0, 2))
  {
    var sig := Signal(None, 0, DEFAULT_PARAMS);
    ByWeightOfTwo(dir, 100, 110);
    var ranked := Ranked(dir, TWO_PAIRS, NoRtt, sig);
    BestOfTwo(ranked);
    DefaultScores();
    assert ranked[0].score == NeutralScore(100, DEFAULT_PARAMS) && ranked[1].score == NeutralScore(110, DEFAULT_PARAMS);
  }

  lemma DefaultScores()
    ensures NeutralScore(100, DEFAULT_PARAMS) == 29411764 && NeutralScore(110, DEFAULT_PARAMS) == 32352941
    ensures ChallengerBar(29411764, 25) == 36764705
  {
  }

  /** Without signal every offered pair has its weight's score and no degraded leg. */
  lemma {:induction false} NeutralOffer(st: Step)
    requires st.Valid() && NoSignal(st.dir, st.pairs, st.rtt, st.sig)
    ensures forall c :: c in st.Offer() ==>
              && c.item in st.pairs && c.score == PairScore(st, c.item) && !c.degraded
              && c.tie == Joined(CircuitIds(st.dir, c.item))
  {
  }

  // ---- hysteresis of the flat entry view ------------------------------------------------

  /** The flat view cannot flap either: with unchanged inputs, selecting again with the id of
      the selected entry selects an entry with that id, duplicates of an id included. */
  lemma {:induction false} EntryIdempotent(entries: seq<VerifiedEntry>, exit: VerifiedExit, policy: CircuitPolicy,
                                           rtt: EntryRtt, sig: Signal, prev: Option<Id>)
    ensures var first := SelectEntry(entries, exit, policy, rtt, sig, prev);
            first.Some? ==>
              var again := SelectEntry(entries, exit, policy, rtt, sig, Some(first.value.exitId));
              again.Some? && again.value.exitId == first.value.exitId
  {
    var ranked := RankedEntries(entries, exit, policy, rtt, sig);
    if ranked != [] {
      SortedRanking(ranked);
      RankedTies(entries, exit, policy, rtt, sig);
      ChooseAgain(ranked, StableSort(ranked, RankCmp), prev, sig.params.switchMarginPct);
    }
  }

  lemma {:induction false} RankedTies(entries: seq<VerifiedEntry>, exit: VerifiedExit, policy: CircuitPolicy,
                                      rtt: EntryRtt, sig: Signal)
    ensures forall c :: c in RankedEntries(entries, exit, policy, rtt, sig) ==>
              c.tie == c.item.exitId && c.score < SCORE_LIMIT && c.item in Permitted(entries, exit, policy)
  {
    forall c | c in RankedEntries(entries, exit, policy, rtt, sig) ensures c.score < SCORE_LIMIT {
      var e := c.item;
      ScoreExact(WeightProduct(e.weight, exit.weight), rtt(e).GetOr(sig.params.neutralRttMs),
                 FreshLeg(sig, e.exitId, exit.exitId), sig.params);
    }
  }

  /** The flat view only biases the order too: a permitted entry whenever there is one, and
      dialing the exit through it succeeds. */
  lemma {:induction false} EntryOnlyBiasesTheOrder(entries: seq<VerifiedEntry>, exit: VerifiedExit,
                                                   policy: CircuitPolicy, rtt: EntryRtt, sig: Signal, prev: Option<Id>)
    ensures var r := SelectEntry(entries, exit, policy, rtt, sig, prev);
            && (r.Some? <==> exists e :: e in entries && policy.Permits(e, exit))
            && (r.Some? ==>
                  r.value in entries && policy.Permits(r.value, exit) && ViaEntry(exit, r.value, policy).Some?)
  {
    var ranked, permitted := RankedEntries(entries, exit, policy, rtt, sig), Permitted(entries, exit, policy);
    PermittedExact(entries, exit, policy);
    if ranked == [] {
      forall e | e in entries ensures !policy.Permits(e, exit) {
        assert e !in permitted;
      }
    } else {
      RankedTies(entries, exit, policy, rtt, sig);
      SortedRanking(ranked);
      assert permitted[0] in permitted;
    }
  }

  /** The entry in use as the flat view sees it. */
  function EntryInUse(entries: seq<VerifiedEntry>, exit: VerifiedExit, policy: CircuitPolicy,
                      rtt: EntryRtt, sig: Signal, id: Id): (r: Option<Candidate<VerifiedEntry>>)
    ensures r.Some? ==> r.value in RankedEntries(entries, exit, policy, rtt, sig) && r.value.score <= U128_MAX
  {
    var ranked := RankedEntries(entries, exit, policy, rtt, sig);
    SortedRanking(ranked);
    FindTie(StableSort(ranked, RankCmp), id)
  }

  /** For every margin, the flat view keeps the entry in use exactly when it does not leave
      it, or comes back to it as the best; leaving goes to the best permitted entry. Unless
      the margin wraps, leaving is by the documented rule. */
  lemma {:induction false} EntryLeavesIff(entries: seq<VerifiedEntry>, exit: VerifiedExit, policy: CircuitPolicy,
                                          rtt: EntryRtt, sig: Signal, id: Id)
    requires Permitted(entries, exit, policy) != []
    ensures var ranked := RankedEntries(entries, exit, policy, rtt, sig);
            var inUse := EntryInUse(entries, exit, policy, rtt, sig, id);
            var r := SelectEntry(entries, exit, policy, rtt, sig, Some(id));
            && r.Some?
            && (r.value.exitId == id <==> !Left(ranked, inUse, sig.params.switchMarginPct) || Best(ranked).tie == id)
            && (r.value.exitId != id ==> r.value == Best(ranked).item)
            && (sig.params.switchMarginPct <= U64_MAX - 100 ==>
                (Left(ranked, inUse, sig.params.switchMarginPct) <==>
                 Leavable(ranked, inUse, sig.params.switchMarginPct)))
  {
    var ranked := RankedEntries(entries, exit, policy, rtt, sig);
    SortedRanking(ranked);
    RankedTies(entries, exit, policy, rtt, sig);
    var inUse := EntryInUse(entries, exit, policy, rtt, sig, id);
    ChooseLeavesIff(ranked, inUse, id, sig.params.switchMarginPct);
    LeftMeans(ranked, inUse, sig.params.switchMarginPct);
  }
}
