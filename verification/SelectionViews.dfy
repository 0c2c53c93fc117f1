/** What the choice depends on: not on the order of the pairs or of the directory, and
    not on which of the two views asks for it. */
module SelectionViews {
  import opened Wrappers
  import opened Machine
  import opened Text
  import opened Order
  import opened Directory
  import opened Circuits
  import opened Rtt
  import opened Ranking
  import opened PathScore
  import opened PathAware
  import opened PathAwareLaws

  // ---- order independence ------------------------------------------------------------

  /** The offered circuits as node pairs, without their indices. */
  ghost function OfferedNodes(dir: VerifiedDirectory, pairs: seq<Pair>): set<(NodeEntry, NodeEntry)>
    requires InRange(dir, pairs)
  {
    set p | p in pairs :: (dir.nodes[p.0], dir.nodes[p.1])
  }

  /** These ids name one offered node pair, or none. */
  ghost predicate IdsIdentify(dir: VerifiedDirectory, pairs: seq<Pair>, ids: (Id, Id))
    requires InRange(dir, pairs)
  {
    forall p, q :: p in pairs && q in pairs && CircuitIds(dir, p) == ids && CircuitIds(dir, q) == ids ==>
      dir.nodes[p.0] == dir.nodes[q.0] && dir.nodes[p.1] == dir.nodes[q.1]
  }

  lemma Counterpart(dir: VerifiedDirectory, pairs: seq<Pair>, dir': VerifiedDirectory, pairs': seq<Pair>, p: Pair)
    returns (q: Pair)
    requires InRange(dir, pairs) && InRange(dir', pairs') && p in pairs
    requires OfferedNodes(dir, pairs) <= OfferedNodes(dir', pairs')
    ensures q in pairs' && dir'.nodes[q.0] == dir.nodes[p.0] && dir'.nodes[q.1] == dir.nodes[p.1]
  {
    assert (dir.nodes[p.0], dir.nodes[p.1]) in OfferedNodes(dir', pairs');
    q :| q in pairs' && (dir'.nodes[q.0], dir'.nodes[q.1]) == (dir.nodes[p.0], dir.nodes[p.1]);
  }

  lemma {:induction false} RankedCounterpart(dir: VerifiedDirectory, pairs: seq<Pair>, dir': VerifiedDirectory,
                                             pairs': seq<Pair>, rtt: NodeRtt, sig: Signal, c: Candidate<Pair>)
    returns (d: Candidate<Pair>)
    requires InRange(dir, pairs) && InRange(dir', pairs') && c in Ranked(dir, pairs, rtt, sig)
    requires OfferedNodes(dir, pairs) <= OfferedNodes(dir', pairs')
    ensures d in Ranked(dir', pairs', rtt, sig) && SameKey(c, d, []) && SameKey(d, c, [])
  {
    ScoresFit(dir, pairs, rtt, sig);
    var q := Counterpart(dir, pairs, dir', pairs', c.item);
    var m :| 0 <= m < |pairs'| && pairs'[m] == q;
    d := Ranked(dir', pairs', rtt, sig)[m];
  }

  lemma {:induction false} RankedKeys(dir: VerifiedDirectory, pairs: seq<Pair>, dir': VerifiedDirectory,
                                      pairs': seq<Pair>, rtt: NodeRtt, sig: Signal)
    requires InRange(dir, pairs) && InRange(dir', pairs')
    requires OfferedNodes(dir, pairs) == OfferedNodes(dir', pairs')
    ensures SameKeys(Ranked(dir, pairs, rtt, sig), Ranked(dir', pairs', rtt, sig), [])
  {
    var s, t := Ranked(dir, pairs, rtt, sig), Ranked(dir', pairs', rtt, sig);
    forall c | Offered(c, s) ensures exists d :: d in t && SameKey(c, d, []) {
      var d := RankedCounterpart(dir, pairs, dir', pairs', rtt, sig, c);
    }
    forall d | Offered(d, t) ensures exists c :: c in s && SameKey(c, d, []) {
      var c := RankedCounterpart(dir', pairs', dir, pairs, rtt, sig, d);
    }
  }

  lemma {:induction false} ByWeightCounterpart(dir: VerifiedDirectory, pairs: seq<Pair>, dir': VerifiedDirectory,
                                               pairs': seq<Pair>, c: Candidate<Pair>)
    returns (d: Candidate<Pair>)
    requires InRange(dir, pairs) && InRange(dir', pairs') && c in ByWeight(dir, pairs)
    requires OfferedNodes(dir, pairs) <= OfferedNodes(dir', pairs')
    ensures d in ByWeight(dir', pairs') && SameKey(c, d, []) && SameKey(d, c, [])
  {
    var k :| 0 <= k < |pairs| && ByWeight(dir, pairs)[k] == c;
    var q := Counterpart(dir, pairs, dir', pairs', pairs[k]);
    var m :| 0 <= m < |pairs'| && pairs'[m] == q;
    d := ByWeight(dir', pairs')[m];
  }

  lemma {:induction false} ByWeightKeys(dir: VerifiedDirectory, pairs: seq<Pair>, dir': VerifiedDirectory,
                                        pairs': seq<Pair>)
    requires InRange(dir, pairs) && InRange(dir', pairs')
    requires OfferedNodes(dir, pairs) == OfferedNodes(dir', pairs')
    ensures SameKeys(ByWeight(dir, pairs), ByWeight(dir', pairs'), [])
  {
    var s, t := ByWeight(dir, pairs), ByWeight(dir', pairs');
    forall c | Offered(c, s) ensures exists d :: d in t && SameKey(c, d, []) {
      var d := ByWeightCounterpart(dir, pairs, dir', pairs', c);
    }
    forall d | Offered(d, t) ensures exists c :: c in s && SameKey(c, d, []) {
      var c := ByWeightCounterpart(dir', pairs', dir, pairs, d);
    }
  }

  lemma OfferEmptiness(dir: VerifiedDirectory, pairs: seq<Pair>, dir': VerifiedDirectory, pairs': seq<Pair>)
    requires InRange(dir, pairs) && InRange(dir', pairs')
    requires OfferedNodes(dir, pairs) == OfferedNodes(dir', pairs')
    ensures pairs == [] <==> pairs' == []
  {
    if pairs != [] {
      var q := Counterpart(dir, pairs, dir', pairs', pairs[0]);
    } else if pairs' != [] {
      var q := Counterpart(dir', pairs', dir, pairs, pairs'[0]);
    }
  }

  /** The ids the weight pick chooses depend only on which node pairs are offered. */
  lemma {:induction false} WeightPickOrderIndependent(dir: VerifiedDirectory, pairs: seq<Pair>,
                                                      dir': VerifiedDirectory, pairs': seq<Pair>)
    requires InRange(dir, pairs) && InRange(dir', pairs')
    requires OfferedNodes(dir, pairs) == OfferedNodes(dir', pairs')
    ensures var (r, r') := (PickByWeight(dir, pairs), PickByWeight(dir', pairs'));
            && r.Some? == r'.Some?
            && (r.Some? ==>
                  r.value in pairs && r'.value in pairs' && CircuitIds(dir, r.value) == CircuitIds(dir', r'.value))
  {
    OfferEmptiness(dir, pairs, dir', pairs');
    if pairs != [] {
      ByWeightKeys(dir, pairs, dir', pairs');
      SameWinner(ByWeight(dir, pairs), ByWeight(dir', pairs'), []);
      var (r, r') := (PickByWeight(dir, pairs).value, PickByWeight(dir', pairs').value);
      TieBreakIsThenWith(CircuitIds(dir, r), CircuitIds(dir', r'));
    }
  }

  /** The ids the path-aware selection chooses depend only on which node pairs are offered;
      with a circuit in use, provided its own ids name at most one of them. */
  lemma {:induction false} SelectOrderIndependent(dir: VerifiedDirectory, pairs: seq<Pair>, dir': VerifiedDirectory,
                                                  pairs': seq<Pair>, rtt: NodeRtt, sig: Signal, prev: Option<(Id, Id)>)
    requires InRange(dir, pairs) && InRange(dir', pairs')
    requires OfferedNodes(dir, pairs) == OfferedNodes(dir', pairs')
    requires prev.Some? ==> IdsIdentify(dir, pairs, prev.value)
    ensures Step(dir, pairs, rtt, sig).Next(prev) == Step(dir', pairs', rtt, sig).Next(prev)
  {
    OfferEmptiness(dir, pairs, dir', pairs');
    if pairs != [] {
      var st, st' := Step(dir, pairs, rtt, sig), Step(dir', pairs', rtt, sig);
      RankedKeys(dir, pairs, dir', pairs', rtt, sig);
      SameWinner(st.Offer(), st'.Offer(), []);
      if prev.Some? {
        IncumbentOrderIndependent(st, st', prev.value);
      }
      NextExact(st, prev);
      NextExact(st', prev);
      TieBreakIsThenWith(st.Next(prev).value, st'.Next(prev).value);
    }
  }

  lemma {:induction false} IncumbentOrderIndependent(st: Step, st': Step, p: (Id, Id))
    requires st.Valid() && st'.Valid() && st'.rtt == st.rtt && st'.sig == st.sig
    requires OfferedNodes(st.dir, st.pairs) == OfferedNodes(st'.dir, st'.pairs)
    requires IdsIdentify(st.dir, st.pairs, p)
    ensures st.Incumbent(p).Some? == st'.Incumbent(p).Some?
    ensures st.Incumbent(p).Some? ==> SameKey(st.Incumbent(p).value, st'.Incumbent(p).value, [])
  {
    RankedKeys(st.dir, st.pairs, st'.dir, st'.pairs, st.rtt, st.sig);
    var i, i' := st.Incumbent(p), st'.Incumbent(p);
    if i.Some? {
      assert Offered(i.value, st.Offer());
    }
    if i'.Some? {
      assert Offered(i'.value, st'.Offer());
      var c :| c in st.Offer() && SameKey(c, i'.value, []);
      if i.Some? {
        TieNamesCandidate(st, p, c, i.value);
      }
    }
  }

  lemma {:induction false} TieNamesCandidate(st: Step, p: (Id, Id), c: Candidate<Pair>, d: Candidate<Pair>)
    requires st.Valid() && IdsIdentify(st.dir, st.pairs, p)
    requires c in st.Offer() && d in st.Offer() && c.tie == d.tie == Joined(p)
    ensures SameKey(c, d, [])
  {
    ScoresFit(st.dir, st.pairs, st.rtt, st.sig);
    TieBreakIsThenWith(CircuitIds(st.dir, c.item), p);
    TieBreakIsThenWith(CircuitIds(st.dir, d.item), p);
  }

  /** Two listings of the same fleet. */
  ghost predicate SameFleet(dir: VerifiedDirectory, dir': VerifiedDirectory) {
    forall n :: n in dir.nodes <==> n in dir'.nodes
  }

  lemma SamePolicy(dir: VerifiedDirectory, dir': VerifiedDirectory)
    requires SameFleet(dir, dir')
    ensures PolicyFor(dir) == PolicyFor(dir')
  {
    forall a ensures a in AsSpread(Asns(dir.nodes)) <==> a in AsSpread(Asns(dir'.nodes)) {
      AsnListed(dir, dir', a);
      AsnListed(dir', dir, a);
    }
    assert AsSpread(Asns(dir.nodes)) == AsSpread(Asns(dir'.nodes));
  }

  lemma AsnListed(dir: VerifiedDirectory, dir': VerifiedDirectory, a: u32)
    requires forall n :: n in dir.nodes ==> n in dir'.nodes
    ensures a in Asns(dir.nodes) ==> a in Asns(dir'.nodes)
  {
    if a in Asns(dir.nodes) {
      var i :| 0 <= i < |dir.nodes| && Asns(dir.nodes)[i] == a;
      assert dir.nodes[i] in dir'.nodes;
      var j :| 0 <= j < |dir'.nodes| && dir'.nodes[j] == dir.nodes[i];
      assert Asns(dir'.nodes)[j] == a;
    }
  }

  lemma CircuitsCarryOver(dir: VerifiedDirectory, dir': VerifiedDirectory, q: CircuitQuery)
    requires SameFleet(dir, dir')
    ensures InRange(dir, ValidPairs(dir, q)) && InRange(dir', ValidPairs(dir', q))
    ensures OfferedNodes(dir, ValidPairs(dir, q)) <= OfferedNodes(dir', ValidPairs(dir', q))
  {
    ValidPairsExact(dir, q);
    ValidPairsExact(dir', q);
    SamePolicy(dir, dir');
    forall p | p in ValidPairs(dir, q)
      ensures (dir.nodes[p.0], dir.nodes[p.1]) in OfferedNodes(dir', ValidPairs(dir', q))
    {
      assert dir.nodes[p.0] in dir'.nodes && dir.nodes[p.1] in dir'.nodes;
      var i :| 0 <= i < |dir'.nodes| && dir'.nodes[i] == dir.nodes[p.0];
      var j :| 0 <= j < |dir'.nodes| && dir'.nodes[j] == dir.nodes[p.1];
      assert (i, j) in ValidPairs(dir', q);
    }
  }

  /** Re-listing the fleet in another order changes neither pick's ids, over the circuits
      `valid_circuits` offers. */
  lemma {:induction false} FleetOrderIndependent(dir: VerifiedDirectory, dir': VerifiedDirectory, q: CircuitQuery,
                                                 rtt: NodeRtt, sig: Signal, prev: Option<(Id, Id)>)
    requires SameFleet(dir, dir')
    requires prev.Some? ==> InRange(dir, ValidPairs(dir, q)) && IdsIdentify(dir, ValidPairs(dir, q), prev.value)
    ensures InRange(dir, ValidPairs(dir, q)) && InRange(dir', ValidPairs(dir', q))
    ensures Step(dir, ValidPairs(dir, q), rtt, sig).Next(prev) == Step(dir', ValidPairs(dir', q), rtt, sig).Next(prev)
    ensures var (r, r') := (PickByWeight(dir, ValidPairs(dir, q)), PickByWeight(dir', ValidPairs(dir', q)));
            && r.Some? == r'.Some?
            && (r.Some? ==> r.value in ValidPairs(dir, q) && r'.value in ValidPairs(dir', q) &&
                            CircuitIds(dir, r.value) == CircuitIds(dir', r'.value))
  {
    CircuitsCarryOver(dir, dir', q);
    CircuitsCarryOver(dir', dir, q);
    SelectOrderIndependent(dir, ValidPairs(dir, q), dir', ValidPairs(dir', q), rtt, sig, prev);
    WeightPickOrderIndependent(dir, ValidPairs(dir, q), dir', ValidPairs(dir', q));
  }

  // ---- the two views agree --------------------------------------------------------------

  /** The dual-role fleet: every node's relay id is its exit id, and no two nodes share one. */
  ghost predicate DualRoleFleet(dir: VerifiedDirectory) {
    && (forall n :: n in dir.nodes ==> n.relay.relayId == n.exit.exitId)
    && (forall i, j :: 0 <= i < j < |dir.nodes| ==> dir.nodes[i].exit.exitId != dir.nodes[j].exit.exitId)
  }

  /** The legal circuits that end in node `j`. */
  function PairsTo(dir: VerifiedDirectory, pairs: seq<Pair>, j: nat): seq<Pair> {
    if pairs == [] then []
    else (if pairs[0].1 == j then [pairs[0]] else []) + PairsTo(dir, pairs[1..], j)
  }

  lemma {:induction false} PairsToExact(dir: VerifiedDirectory, pairs: seq<Pair>, j: nat)
    ensures forall p :: p in PairsTo(dir, pairs, j) <==> p in pairs && p.1 == j
  {
    if pairs != [] {
      PairsToExact(dir, pairs[1..], j);
      forall p ensures p in PairsTo(dir, pairs, j) <==> p in pairs && p.1 == j {
        assert p in pairs <==> p == pairs[0] || p in pairs[1..];
      }
    }
  }

  /** Both views of the choice of an entry for exit `j`. */
  datatype EntryChoice = EntryChoice(dir: VerifiedDirectory, j: nat, pqOk: PqCheck, nodeRtt: NodeRtt,
                                     entryRtt: EntryRtt, sig: Signal)
  {
    ghost predicate Valid() {
      && j < |dir.nodes|
      && DualRoleFleet(dir)
      && (forall n :: n in dir.nodes ==> nodeRtt(n) == entryRtt(EntryOf(n)))
    }

    function Pairs(): seq<Pair> {
      PairsTo(dir, ValidPairs(dir, ANY), j)
    }

    function Exit(): VerifiedExit
      requires j < |dir.nodes|
    {
      ExitOf(pqOk, dir.operationalKey, dir.nodes[j])
    }

    function EntryRanking(): seq<Candidate<VerifiedEntry>>
      requires j < |dir.nodes|
    {
      RankedEntries(Entries(dir), Exit(), PolicyFor(dir), entryRtt, sig)
    }

    function PairRanking(): seq<Candidate<Pair>>
      requires InRange(dir, Pairs())
    {
      Ranked(dir, Pairs(), nodeRtt, sig)
    }

    function FlatChoice(prev: Option<Id>): Option<VerifiedEntry>
      requires j < |dir.nodes|
    {
      SelectEntry(Entries(dir), Exit(), PolicyFor(dir), entryRtt, sig, prev)
    }

    function PairChoice(prev: Option<(Id, Id)>): Option<Pair>
      requires InRange(dir, Pairs())
    {
      SelectCircuit(dir, Pairs(), nodeRtt, sig, prev)
    }

    /** What every pair identifier ends with. */
    function Suffix(): Id
      requires j < |dir.nodes|
    {
      dir.nodes[j].exit.exitId
    }

    function PairIncumbent(prev: Option<Id>): Option<Candidate<Pair>>
      requires j < |dir.nodes| && InRange(dir, Pairs())
    {
      if prev.None? then None else FindTie(PairRanking(), Joined((prev.value, Suffix())))
    }

    function EntryIncumbent(prev: Option<Id>): (r: Option<Candidate<VerifiedEntry>>)
      requires j < |dir.nodes|
      ensures r.Some? ==> r.value in EntryRanking() && prev.Some? && r.value.tie == prev.value
    {
      SortedRanking(EntryRanking());
      if prev.None? then None else FindTie(StableSort(EntryRanking(), RankCmp), prev.value)
    }
  }

  lemma PairsOffered(ch: EntryChoice, i: nat)
    requires ch.Valid()
    ensures InRange(ch.dir, ch.Pairs())
    ensures (i, ch.j) in ch.Pairs() <==>
            i < |ch.dir.nodes| && PolicyFor(ch.dir).Permits(EntryOf(ch.dir.nodes[i]), ch.Exit())
    ensures forall p :: p in ch.Pairs() ==> p.1 == ch.j
  {
    ValidPairsExact(ch.dir, ANY);
    PairsToExact(ch.dir, ValidPairs(ch.dir, ANY), ch.j);
    if i < |ch.dir.nodes| {
      DualRoleViewsAgree(ch.dir, ch.pqOk, i, ch.j);
      assert Exits(ch.pqOk, ch.dir)[ch.j] == ch.Exit();
    }
  }

  /** The candidates of the two views carry the same keys, entry by entry. */
  lemma SameKeyAt(ch: EntryChoice, i: nat)
    requires ch.Valid() && i < |ch.dir.nodes|
    ensures SameKey(CircuitCandidate(ch.dir, ch.nodeRtt, ch.sig, (i, ch.j)),
                    EntryCandidate(ch.Exit(), ch.entryRtt, ch.sig, EntryOf(ch.dir.nodes[i])),
                    ch.dir.nodes[ch.j].exit.exitId)
  {
    assert ch.dir.nodes[i] in ch.dir.nodes;
  }

  lemma EntryOffered(ch: EntryChoice, d: Candidate<VerifiedEntry>) returns (i: nat)
    requires ch.Valid() && d in ch.EntryRanking()
    ensures i < |ch.dir.nodes| && (i, ch.j) in ch.Pairs()
    ensures d == EntryCandidate(ch.Exit(), ch.entryRtt, ch.sig, EntryOf(ch.dir.nodes[i]))
  {
    PermittedExact(Entries(ch.dir), ch.Exit(), PolicyFor(ch.dir));
    assert d.item in Permitted(Entries(ch.dir), ch.Exit(), PolicyFor(ch.dir));
    i :| 0 <= i < |ch.dir.nodes| && Entries(ch.dir)[i] == d.item;
    PairsOffered(ch, i);
  }

  lemma PairOffered(ch: EntryChoice, p: Pair)
    requires ch.Valid() && p in ch.Pairs()
    ensures p.0 < |ch.dir.nodes| && p.1 == ch.j
    ensures EntryCandidate(ch.Exit(), ch.entryRtt, ch.sig, EntryOf(ch.dir.nodes[p.0])) in ch.EntryRanking()
  {
    PairsOffered(ch, p.0);
    PermittedExact(Entries(ch.dir), ch.Exit(), PolicyFor(ch.dir));
    assert Entries(ch.dir)[p.0] == EntryOf(ch.dir.nodes[p.0]);
    var permitted := Permitted(Entries(ch.dir), ch.Exit(), PolicyFor(ch.dir));
    var k :| 0 <= k < |permitted| && permitted[k] == EntryOf(ch.dir.nodes[p.0]);
    assert ch.EntryRanking()[k] in ch.EntryRanking();
  }

  lemma {:induction false} PairCounterpart(ch: EntryChoice, c: Candidate<Pair>) returns (d: Candidate<VerifiedEntry>)
    requires ch.Valid() && InRange(ch.dir, ch.Pairs()) && c in ch.PairRanking()
    ensures d in ch.EntryRanking() && SameKey(c, d, ch.Suffix())
  {
    PairOffered(ch, c.item);
    SameKeyAt(ch, c.item.0);
    d := EntryCandidate(ch.Exit(), ch.entryRtt, ch.sig, EntryOf(ch.dir.nodes[c.item.0]));
  }

  lemma {:induction false} EntryCounterpart(ch: EntryChoice, d: Candidate<VerifiedEntry>) returns (c: Candidate<Pair>)
    requires ch.Valid() && InRange(ch.dir, ch.Pairs()) && d in ch.EntryRanking()
    ensures c in ch.PairRanking() && SameKey(c, d, ch.Suffix())
  {
    var i := EntryOffered(ch, d);
    SameKeyAt(ch, i);
    var k :| 0 <= k < |ch.Pairs()| && ch.Pairs()[k] == (i, ch.j);
    c := ch.PairRanking()[k];
  }

  lemma {:induction false} TieLength(ch: EntryChoice)
    requires ch.Valid()
    ensures forall d :: d in ch.EntryRanking() ==> |d.tie| == 16
  {
    forall d | d in ch.EntryRanking() ensures |d.tie| == 16 {
      var i := EntryOffered(ch, d);
    }
  }

  lemma {:induction false} ViewKeys(ch: EntryChoice)
    requires ch.Valid() && InRange(ch.dir, ch.Pairs())
    ensures SameKeys(ch.PairRanking(), ch.EntryRanking(), ch.Suffix())
  {
    var s, t := ch.PairRanking(), ch.EntryRanking();
    TieLength(ch);
    forall c | Offered(c, s) ensures exists d :: d in t && SameKey(c, d, ch.Suffix()) {
      var d := PairCounterpart(ch, c);
    }
    forall d | Offered(d, t) ensures exists c :: c in s && SameKey(c, d, ch.Suffix()) {
      var c := EntryCounterpart(ch, d);
    }
  }

  /** Candidates of the two views with the same identifier are about the same node. */
  lemma {:induction false} SameItem(ch: EntryChoice, c: Candidate<Pair>, d: Candidate<VerifiedEntry>) returns (m: nat)
    requires ch.Valid() && InRange(ch.dir, ch.Pairs())
    requires c in ch.PairRanking() && d in ch.EntryRanking() && c.tie == d.tie + ch.Suffix()
    ensures m < |ch.dir.nodes| && c.item == (m, ch.j) && d.item == EntryOf(ch.dir.nodes[m])
    ensures SameKey(c, d, ch.Suffix())
  {
    m := EntryOffered(ch, d);
    PairsOffered(ch, c.item.0);
    assert ch.dir.nodes[c.item.0] in ch.dir.nodes;
    TieBreakIsThenWith(CircuitIds(ch.dir, c.item), (d.tie, ch.Suffix()));
    SameNode(ch.dir, c.item.0, m);
    SameKeyAt(ch, m);
  }

  lemma {:induction false} PairSeenInEntries(ch: EntryChoice, prev: Id)
    requires ch.Valid() && InRange(ch.dir, ch.Pairs()) && ch.PairIncumbent(Some(prev)).Some?
    ensures ch.EntryIncumbent(Some(prev)).Some?
  {
    var c := ch.PairIncumbent(Some(prev)).value;
    var d := PairCounterpart(ch, c);
    var m := SameItem(ch, c, d);
    TieBreakIsThenWith((d.tie, ch.Suffix()), (prev, ch.Suffix()));
    SortedRanking(ch.EntryRanking());
  }

  lemma {:induction false} EntrySeenInPairs(ch: EntryChoice, prev: Id)
    requires ch.Valid() && InRange(ch.dir, ch.Pairs()) && ch.EntryIncumbent(Some(prev)).Some?
    ensures ch.PairIncumbent(Some(prev)).Some?
  {
    var c := EntryCounterpart(ch, ch.EntryIncumbent(Some(prev)).value);
  }

  lemma {:induction false} ViewIncumbents(ch: EntryChoice, prev: Option<Id>)
    requires ch.Valid() && InRange(ch.dir, ch.Pairs())
    ensures ch.PairIncumbent(prev).Some? == ch.EntryIncumbent(prev).Some?
    ensures ch.PairIncumbent(prev).Some? ==>
            SameKey(ch.PairIncumbent(prev).value, ch.EntryIncumbent(prev).value, ch.Suffix())
  {
    if ch.PairIncumbent(prev).Some? {
      PairSeenInEntries(ch, prev.value);
      var m := SameItem(ch, ch.PairIncumbent(prev).value, ch.EntryIncumbent(prev).value);
    } else if ch.EntryIncumbent(prev).Some? {
      EntrySeenInPairs(ch, prev.value);
    }
  }

  lemma SameNode(dir: VerifiedDirectory, i: nat, m: nat)
    requires DualRoleFleet(dir) && i < |dir.nodes| && m < |dir.nodes|
    requires dir.nodes[i].exit.exitId == dir.nodes[m].exit.exitId
    ensures i == m
  {
  }

  lemma {:induction false} SameEmptiness(ch: EntryChoice)
    requires ch.Valid() && InRange(ch.dir, ch.Pairs())
    ensures ch.Pairs() == [] <==> ch.EntryRanking() == []
  {
    ViewKeys(ch);
    var s, t := ch.PairRanking(), ch.EntryRanking();
    assert s != [] ==> Offered(s[0], s);
    assert t != [] ==> Offered(t[0], t);
  }

  lemma EntryResult(ch: EntryChoice, prev: Option<Id>)
    requires ch.Valid() && ch.EntryRanking() != []
    ensures forall d :: d in ch.EntryRanking() ==> d.score <= U128_MAX
    ensures SelectEntry(Entries(ch.dir), ch.Exit(), PolicyFor(ch.dir), ch.entryRtt, ch.sig, prev) ==
            Some(Choose(ch.EntryRanking(), ch.EntryIncumbent(prev), ch.sig.params.switchMarginPct).item)
  {
  }

  lemma PairResult(ch: EntryChoice, prev: Option<Id>)
    requires ch.Valid() && InRange(ch.dir, ch.Pairs()) && ch.Pairs() != []
    ensures forall c :: c in ch.PairRanking() ==> c.score <= U128_MAX
    ensures SelectCircuit(ch.dir, ch.Pairs(), ch.nodeRtt, ch.sig, WithExit(prev, ch.Suffix())) ==
            Some(Choose(ch.PairRanking(), ch.PairIncumbent(prev), ch.sig.params.switchMarginPct).item)
  {
    ScoresFit(ch.dir, ch.Pairs(), ch.nodeRtt, ch.sig);
    assert ch.PairRanking() == Ranked(ch.dir, ch.Pairs(), ch.nodeRtt, ch.sig) != [];
  }

  function WithExit(prev: Option<Id>, exitId: Id): Option<(Id, Id)> {
    match prev case None => None case Some(id) => Some((id, exitId))
  }

  /** For every exit, advisory, RTT store and circuit in use, the entry view picks entry `i`
      exactly when the pair view over the circuits ending in that exit picks `(i, j)`. */
  lemma {:induction false} ViewsAgree(ch: EntryChoice, prev: Option<Id>, i: nat)
    requires ch.Valid() && i < |ch.dir.nodes|
    ensures InRange(ch.dir, ch.Pairs())
    ensures
      ch.FlatChoice(prev) == Some(EntryOf(ch.dir.nodes[i])) <==>
      ch.PairChoice(WithExit(prev, ch.Suffix())) == Some((i, ch.j))
  {
    PairsOffered(ch, 0);
    SameEmptiness(ch);
    if ch.Pairs() != [] {
      EntryResult(ch, prev);
      PairResult(ch, prev);
      var m := SameChosenNode(ch, prev);
      if EntryOf(ch.dir.nodes[i]) == EntryOf(ch.dir.nodes[m]) {
        SameNode(ch.dir, i, m);
      }
    }
  }

  lemma {:induction false} SameChosenNode(ch: EntryChoice, prev: Option<Id>) returns (m: nat)
    requires ch.Valid() && InRange(ch.dir, ch.Pairs()) && ch.Pairs() != [] && ch.EntryRanking() != []
    requires forall c :: c in ch.PairRanking() ==> c.score <= U128_MAX
    requires forall d :: d in ch.EntryRanking() ==> d.score <= U128_MAX
    ensures m < |ch.dir.nodes|
    ensures Choose(ch.PairRanking(), ch.PairIncumbent(prev), ch.sig.params.switchMarginPct).item == (m, ch.j)
    ensures Choose(ch.EntryRanking(), ch.EntryIncumbent(prev), ch.sig.params.switchMarginPct).item ==
            EntryOf(ch.dir.nodes[m])
  {
    var a, b := ch.PairIncumbent(prev), ch.EntryIncumbent(prev);
    var margin := ch.sig.params.switchMarginPct;
    ViewKeys(ch);
    ViewIncumbents(ch, prev);
    SameChoice(ch.PairRanking(), ch.EntryRanking(), ch.Suffix(), a, b, margin);
    m := SameItem(ch, Choose(ch.PairRanking(), a, margin), Choose(ch.EntryRanking(), b, margin));
  }

  // ---- a circuit in use toward another exit ------------------------------------------------

  /** The two views choose alike for exit `j`, given what each is told to be in use. */
  ghost predicate ChooseAlike(ch: EntryChoice, entryInUse: Option<Id>, circuitInUse: Option<(Id, Id)>)
    requires ch.Valid() && InRange(ch.dir, ch.Pairs())
  {
    forall i :: 0 <= i < |ch.dir.nodes| ==> ChooseAlikeAt(ch, entryInUse, circuitInUse, i)
  }

  ghost predicate ChooseAlikeAt(ch: EntryChoice, entryInUse: Option<Id>, circuitInUse: Option<(Id, Id)>, i: nat)
    requires ch.Valid() && InRange(ch.dir, ch.Pairs()) && i < |ch.dir.nodes|
  {
    ch.FlatChoice(entryInUse) == Some(EntryOf(ch.dir.nodes[i])) <==> ch.PairChoice(circuitInUse) == Some((i, ch.j))
  }

  /** The pair view forgets a circuit in use toward another exit. */
  lemma {:induction false} ElsewhereForgotten(ch: EntryChoice, p: (Id, Id))
    requires ch.Valid() && InRange(ch.dir, ch.Pairs()) && p.1 != ch.Suffix()
    ensures ch.PairChoice(Some(p)) == ch.PairChoice(None)
  {
    PairsOffered(ch, 0);
    var found := FindTie(ch.PairRanking(), Joined(p));
    if found.Some? {
      TieBreakIsThenWith(CircuitIds(ch.dir, found.value.item), p);
    }
  }

  /** Entries ranked for one exit under one id are one entry. */
  lemma {:induction false} SameEntry(ch: EntryChoice, c: Candidate<VerifiedEntry>, d: Candidate<VerifiedEntry>)
    requires ch.Valid() && c in ch.EntryRanking() && d in ch.EntryRanking() && c.tie == d.tie
    ensures c.item == d.item
  {
    var i := EntryOffered(ch, c);
    var m := EntryOffered(ch, d);
    SameNode(ch.dir, i, m);
  }

  /** What the flat view is told to be in use makes no difference. */
  ghost predicate Unretained(ch: EntryChoice, id: Id)
    requires ch.Valid()
  {
    RankedTies(Entries(ch.dir), ch.Exit(), PolicyFor(ch.dir), ch.entryRtt, ch.sig);
    || ch.EntryRanking() == []
    || Left(ch.EntryRanking(), ch.EntryIncumbent(Some(id)), ch.sig.params.switchMarginPct)
    || Best(ch.EntryRanking()).tie == id
  }

  lemma {:induction false} UnretainedIff(ch: EntryChoice, id: Id)
    requires ch.Valid()
    ensures ch.FlatChoice(Some(id)) == ch.FlatChoice(None) <==> Unretained(ch, id)
  {
    if ch.EntryRanking() != [] {
      var best, inUse := Best(ch.EntryRanking()), ch.EntryIncumbent(Some(id));
      EntryResult(ch, Some(id));
      EntryResult(ch, None);
      RankedTies(Entries(ch.dir), ch.Exit(), PolicyFor(ch.dir), ch.entryRtt, ch.sig);
      BestBeatsAll(ch.EntryRanking());
      if inUse.Some? && best.tie == inUse.value.tie {
        SameEntry(ch, best, inUse.value);
      }
    }
  }

  /** For every circuit in use, toward any exit, the views choose alike for exit `j` exactly
      when it leads to that exit, or the flat view would not retain its entry: none permitted,
      the entry left, or best anyway. */
  lemma {:induction false} ViewsAgreeIff(ch: EntryChoice, p: (Id, Id))
    requires ch.Valid()
    ensures InRange(ch.dir, ch.Pairs())
    ensures ChooseAlike(ch, Some(p.0), Some(p)) <==> p.1 == ch.Suffix() || Unretained(ch, p.0)
  {
    PairsOffered(ch, 0);
    if p.1 == ch.Suffix() {
      forall i | 0 <= i < |ch.dir.nodes| ensures ChooseAlikeAt(ch, Some(p.0), Some(p), i) {
        ViewsAgree(ch, Some(p.0), i);
      }
    } else {
      ElsewhereForgotten(ch, p);
      UnretainedIff(ch, p.0);
      forall i | 0 <= i < |ch.dir.nodes| ensures ChooseAlikeAt(ch, None, None, i) {
        ViewsAgree(ch, None, i);
      }
      AlikeIffEqual(ch, p);
    }
  }

  lemma {:induction false} AlikeIffEqual(ch: EntryChoice, p: (Id, Id))
    requires ch.Valid() && InRange(ch.dir, ch.Pairs())
    requires ch.PairChoice(Some(p)) == ch.PairChoice(None) && ChooseAlike(ch, None, None)
    ensures ChooseAlike(ch, Some(p.0), Some(p)) <==> ch.FlatChoice(Some(p.0)) == ch.FlatChoice(None)
  {
    if ch.FlatChoice(Some(p.0)) == ch.FlatChoice(None) {
      forall i | 0 <= i < |ch.dir.nodes| ensures ChooseAlikeAt(ch, Some(p.0), Some(p), i) {
        assert ChooseAlikeAt(ch, None, None, i);
      }
    }
    if ChooseAlike(ch, Some(p.0), Some(p)) {
      var i := ChoiceListed(ch, Some(p.0));
      var m := ChoiceListed(ch, None);
      if i < |ch.dir.nodes| {
        assert ChooseAlikeAt(ch, Some(p.0), Some(p), i) && ChooseAlikeAt(ch, None, None, i);
      }
      if m < |ch.dir.nodes| {
        assert ChooseAlikeAt(ch, Some(p.0), Some(p), m) && ChooseAlikeAt(ch, None, None, m);
      }
    }
  }

  /** A flat choice is the entry of some node. */
  lemma {:induction false} ChoiceListed(ch: EntryChoice, prev: Option<Id>) returns (i: nat)
    requires ch.Valid()
    ensures ch.FlatChoice(prev).Some? ==> i < |ch.dir.nodes| && ch.FlatChoice(prev) == Some(EntryOf(ch.dir.nodes[i]))
    ensures ch.FlatChoice(prev).None? ==> i == |ch.dir.nodes|
  {
    i := |ch.dir.nodes|;
    var r := ch.FlatChoice(prev);
    if r.Some? {
      EntryOnlyBiasesTheOrder(Entries(ch.dir), ch.Exit(), PolicyFor(ch.dir), ch.entryRtt, ch.sig, prev);
      i := ListedAt(ch.dir, r.value);
    }
  }

  lemma ListedAt(dir: VerifiedDirectory, e: VerifiedEntry) returns (i: nat)
    requires e in Entries(dir)
    ensures i < |dir.nodes| && EntryOf(dir.nodes[i]) == e
  {
    i :| 0 <= i < |dir.nodes| && Entries(dir)[i] == e;
  }

  /** Two entries in DE and an exit in NL, dual-role, the lighter entry with the smaller id. */
  function SampleFleet(): VerifiedDirectory {
    var (light, heavy) := (BareNode(1, 1, "DE").(weight := 100), BareNode(2, 2, "DE").(weight := 110));
    VerifiedDirectory(seq(32, _ => 0), [light, heavy, BareNode(3, 3, "NL")], 0, 0, 0, 0)
  }

  function SampleChoice(): EntryChoice {
    EntryChoice(SampleFleet(), 2, (key, x) => false, NoRtt, e => None, Signal(None, 0, DEFAULT_PARAMS))
  }

  lemma {:induction false} SampleValid()
    ensures SampleChoice().Valid()
  {
    var nodes := SampleFleet().nodes;
    assert nodes[0].exit.exitId[0] == 1 && nodes[1].exit.exitId[0] == 2 && nodes[2].exit.exitId[0] == 3;
  }

  lemma {:induction false} SamplePermitted()
    ensures Permitted(Entries(SampleFleet()), SampleChoice().Exit(), PolicyFor(SampleFleet())) ==
            [EntryOf(SampleFleet().nodes[0]), EntryOf(SampleFleet().nodes[1])]
  {
    var (entries, exit, policy) := (Entries(SampleFleet()), SampleChoice().Exit(), PolicyFor(SampleFleet()));
    NoDiversityRequired(SampleFleet());
    DifferentCountries();
    assert entries[0].exitId[0] == 1 && entries[1].exitId[0] == 2 && exit.exitId[0] == 3;
    assert entries == [entries[0], entries[1], entries[2]] && entries[1..] == [entries[1], entries[2]];
    assert entries[1..][1..] == [entries[2]];
    assert policy.Permits(entries[0], exit) && policy.Permits(entries[1], exit) && !policy.Permits(entries[2], exit);
    assert Permitted([entries[2]], exit, policy) == [];
    assert Permitted([entries[1], entries[2]], exit, policy) == [entries[1]];
  }

  /** With the lighter entry in use toward another exit, at the production parameters, the
      flat view keeps it and the pair view takes the heavier one. */
  lemma {:induction false} ElsewhereDiffers(exitId: Id)
    requires exitId != SampleChoice().Suffix()
    ensures var (ch, id) := (SampleChoice(), SampleFleet().nodes[0].relay.relayId);
            && ch.Valid() && InRange(ch.dir, ch.Pairs())
            && ch.FlatChoice(Some(id)) == Some(EntryOf(ch.dir.nodes[0]))
            && ch.PairChoice(Some((id, exitId))) == Some((1, 2))
  {
    var (ch, id) := (SampleChoice(), SampleFleet().nodes[0].relay.relayId);
    SampleValid();
    PairsOffered(ch, 0);
    ElsewhereForgotten(ch, (id, exitId));
    SampleRanking();
    ViewsAgree(ch, None, 1);
  }

  lemma {:induction false} SampleScores()
    ensures var ranked := SampleChoice().EntryRanking();
            && |ranked| == 2 && ranked[0].item == EntryOf(SampleFleet().nodes[0])
            && ranked[1].item == EntryOf(SampleFleet().nodes[1])
            && ranked[0].score == 29411764 && ranked[1].score == 32352941
            && !ranked[0].degraded && forall k :: 0 <= k < 2 ==> ranked[k].tie == ranked[k].item.exitId
  {
    SamplePermitted();
    DefaultScores();
  }

  lemma {:induction false} SampleRanking()
    ensures var (ch, id) := (SampleChoice(), SampleFleet().nodes[0].relay.relayId);
            && ch.FlatChoice(Some(id)) == Some(EntryOf(ch.dir.nodes[0]))
            && ch.FlatChoice(None) == Some(EntryOf(ch.dir.nodes[1]))
  {
    var ch, id := SampleChoice(), SampleFleet().nodes[0].relay.relayId;
    SampleValid();
    SampleScores();
    DefaultScores();
    var ranked := ch.EntryRanking();
    assert ranked[0].tie[0] == 1 && ranked[1].tie[0] == 2;
    BestOfTwo(ranked);
    FindFirstOfTwo(ranked, id);
    EntryResult(ch, None);
    EntryResult(ch, Some(id));
  }

  /** Both views reading one RTT store, each through its own adaptor. */
  function StoreChoice(dir: VerifiedDirectory, j: nat, pqOk: PqCheck, samples: Samples, ttl: u64,
                       sig: Signal): EntryChoice
  {
    EntryChoice(dir, j, pqOk, NodeRttFrom(samples, sig.now, ttl), EntryRttFrom(samples, sig.now, ttl), sig)
  }

  /** The adaptors key the store alike, so the views agree on it: always with nothing in use,
      and with a circuit in use exactly as above. */
  lemma ViewsAgreeOnStore(dir: VerifiedDirectory, j: nat, pqOk: PqCheck, samples: Samples, ttl: u64, sig: Signal,
                          p: (Id, Id))
    requires DualRoleFleet(dir) && j < |dir.nodes|
    ensures var ch := StoreChoice(dir, j, pqOk, samples, ttl, sig);
            && ch.Valid() && InRange(dir, ch.Pairs())
            && ch.Exit() == Exits(pqOk, dir)[j]
            && ChooseAlike(ch, None, None)
            && (ChooseAlike(ch, Some(p.0), Some(p)) <==> p.1 == ch.Suffix() || Unretained(ch, p.0))
  {
    var ch := StoreChoice(dir, j, pqOk, samples, ttl, sig);
    ViewsAgreeIff(ch, p);
    forall i | 0 <= i < |dir.nodes| ensures ChooseAlikeAt(ch, None, None, i) {
      ViewsAgree(ch, None, i);
    }
  }
}
