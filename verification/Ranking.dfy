/** The rule both selection views share: rank by score, break ties by identifier,
    keep the incumbent unless it is degraded or clearly beaten. */
module Ranking {
  import opened Wrappers
  import opened Machine
  import opened Order

  /** What the comparator and the hysteresis read of one candidate. `tie` is its
      identifier, `degraded` the verdict of its fresh advisory leg. */
  datatype Candidate<+T> = Candidate(item: T, score: nat, tie: seq<byte>, degraded: bool)

  /** Higher score first, then the smaller identifier. */
  function RankCmp<T>(a: Candidate<T>, b: Candidate<T>): Ordering {
    CmpNat(b.score, a.score).Then(CmpBytes(a.tie, b.tie))
  }

  lemma RankTotal<T(!new)>()
    ensures TotalPreorder<Candidate<T>>(RankCmp)
  {
    BytesTotal();
  }

  function Best<T>(s: seq<Candidate<T>>): Candidate<T>
    requires s != []
  {
    s[FirstMin(s, RankCmp)]
  }

  /** Sorting a ranking puts its winner first and keeps its elements. */
  lemma SortedRanking<T(!new)>(s: seq<Candidate<T>>)
    ensures s != [] ==> StableSort(s, RankCmp)[0] == Best(s)
    ensures forall c :: c in StableSort(s, RankCmp) <==> c in s
  {
    RankTotal<T>();
    SortSorted(s, RankCmp);
    assert forall c :: c in StableSort(s, RankCmp) <==> c in multiset(StableSort(s, RankCmp));
    if s != [] {
      SortHead(s, RankCmp);
    }
  }

  ghost predicate Beats<A, B>(c: Candidate<A>, d: Candidate<B>) {
    d.score < c.score || (d.score == c.score && CmpBytes(c.tie, d.tie) != Greater)
  }

  lemma BestBeatsAll<T(!new)>(s: seq<Candidate<T>>)
    requires s != []
    ensures Best(s) in s
    ensures forall d :: d in s ==> Beats(Best(s), d)
  {
    RankTotal<T>();
    FirstMinSpec(s, RankCmp);
    forall d | d in s ensures Beats(Best(s), d) {
      var m :| 0 <= m < |s| && s[m] == d;
      assert RankCmp(Best(s), s[m]) != Greater;
    }
  }

  /** Candidate `k` comes before candidate `m`: higher score, then smaller identifier, then
      earlier. */
  ghost predicate Precedes<T>(s: seq<Candidate<T>>, k: nat, m: nat)
    requires k < |s| && m < |s|
  {
    || s[m].score < s[k].score
    || (s[m].score == s[k].score && (CmpBytes(s[k].tie, s[m].tie) == Less || (s[k].tie == s[m].tie && k <= m)))
  }

  lemma {:induction false} BestPosition<T(!new)>(s: seq<Candidate<T>>, m: nat)
    requires m < |s|
    ensures Precedes(s, FirstMin(s, RankCmp), m)
  {
    RankTotal<T>();
    FirstMinSpec(s, RankCmp);
    var k := FirstMin(s, RankCmp);
    LexAntisymmetric(CmpByte, s[k].tie, s[m].tie);
    assert RankCmp(s[k], s[m]) != Greater;
  }

  /** The winner stands at `k` exactly when `k` comes before every candidate. */
  lemma {:induction false} BestPositionIff<T(!new)>(s: seq<Candidate<T>>, k: nat)
    requires k < |s|
    ensures FirstMin(s, RankCmp) == k <==> forall m :: 0 <= m < |s| ==> Precedes(s, k, m)
  {
    var f := FirstMin(s, RankCmp);
    forall m | 0 <= m < |s| ensures Precedes(s, f, m) {
      BestPosition(s, m);
    }
    LexAntisymmetric(CmpByte, s[f].tie, s[k].tie);
    if Precedes(s, k, f) {
      assert Precedes(s, f, k);
    }
  }

  /** `d` carries the same score and verdict as `c`, and `c`'s identifier is `d`'s
      followed by `suffix`. */
  ghost predicate SameKey<A, B>(c: Candidate<A>, d: Candidate<B>, suffix: seq<byte>) {
    c.score == d.score && c.degraded == d.degraded && c.tie == d.tie + suffix
  }

  ghost predicate Offered<T>(c: Candidate<T>, s: seq<Candidate<T>>) {
    c in s
  }

  /** Both sequences offer the same keys, in any order and multiplicity. */
  ghost predicate SameKeys<A(!new), B(!new)>(s: seq<Candidate<A>>, t: seq<Candidate<B>>, suffix: seq<byte>) {
    && (forall c {:trigger Offered(c, s)} :: Offered(c, s) ==> exists d :: d in t && SameKey(c, d, suffix))
    && (forall d {:trigger Offered(d, t)} :: Offered(d, t) ==> exists c :: c in s && SameKey(c, d, suffix))
    && (forall d, d' {:trigger Offered(d, t), Offered(d', t)} ::
          Offered(d, t) && Offered(d', t) ==> |d.tie| == |d'.tie|)
  }

  /** The winning score and identifier depend only on which keys are offered, not on
      their order or multiplicity. */
  lemma SameWinner<A(!new), B(!new)>(s: seq<Candidate<A>>, t: seq<Candidate<B>>, suffix: seq<byte>)
    requires s != [] && t != [] && SameKeys(s, t, suffix)
    ensures Best(s).score == Best(t).score && Best(s).tie == Best(t).tie + suffix
  {
    BestBeatsAll(s);
    BestBeatsAll(t);
    var c, d := Best(s), Best(t);
    assert Offered(c, s) && Offered(d, t);
    var y :| y in t && SameKey(c, y, suffix);
    var x :| x in s && SameKey(x, d, suffix);
    assert Offered(y, t) && Beats(c, x) && Beats(d, y);
    SuffixedTies(y.tie, d.tie, suffix);
  }

  lemma SuffixedTies(a: seq<byte>, b: seq<byte>, suffix: seq<byte>)
    requires |a| == |b|
    ensures CmpBytes(a + suffix, b + suffix) != Greater && CmpBytes(b, a) != Greater ==> a == b
  {
    BytesConcat(a, b, suffix, suffix);
    LexAntisymmetric(CmpByte, suffix, suffix);
    LexAntisymmetric(CmpByte, a, b);
  }

  /** Two rankings of the same identifiers that order every pair of scores alike have
      their winner at the same position. */
  lemma SamePosition<A(!new), B(!new)>(s: seq<Candidate<A>>, t: seq<Candidate<B>>)
    requires s != [] && |s| == |t|
    requires forall k :: 0 <= k < |s| ==> s[k].tie == t[k].tie
    requires forall k, m :: 0 <= k < |s| && 0 <= m < |s| ==> (s[k].score < s[m].score <==> t[k].score < t[m].score)
    ensures FirstMin(s, RankCmp) == FirstMin(t, RankCmp)
  {
    RankTotal<A>();
    RankTotal<B>();
    FirstMinSpec(s, RankCmp);
    var k := FirstMin(s, RankCmp);
    forall m | 0 <= m < |s| ensures RankCmp(s[k], s[m]) == RankCmp(t[k], t[m]) {
      assert s[m].score < s[k].score <==> t[m].score < t[k].score;
    }
    FirstMinUnique(t, RankCmp, k);
  }

  // ---- hysteresis ------------------------------------------------------------

  /** The bar a challenger must exceed. The addition is a u64 one and wraps in a
      release build; the product saturates in u128. */
  function ChallengerBar(score: u128, margin: u64): u128 {
    SaturateU128(score * ((100 + margin) % (U64_MAX + 1))) / 100
  }

  const SCORE_LIMIT: nat := 0x10_0000_0000_0000_0000_0000 // 2^84

  /** The bar in unbounded integers. */
  function ExactBar(score: nat, margin: nat): nat {
    score * (100 + margin) / 100
  }

  /** The switch decision is the same with saturation and in unbounded integers. */
  ghost predicate SameDecision(best: nat, incumbent: nat, margin: u64)
    requires incumbent <= U128_MAX
  {
    best > ChallengerBar(incumbent, margin) <==> best > ExactBar(incumbent, margin)
  }

  lemma BarExact(best: nat, incumbent: nat, margin: u64)
    requires margin <= U64_MAX - 100 && best < SCORE_LIMIT && incumbent < SCORE_LIMIT
    ensures SameDecision(best, incumbent, margin)
  {
    assert (100 + margin) % (U64_MAX + 1) == 100 + margin;
    SaturatedBar(best, incumbent * (100 + margin));
  }

  /** A product that saturates is far above any score, and so is its hundredth. */
  lemma SaturatedBar(best: nat, raw: nat)
    requires best < SCORE_LIMIT
    ensures best > SaturateU128(raw) / 100 <==> best > raw / 100
  {
    if raw > U128_MAX {
      DivMonotone(U128_MAX, raw, 100);
      assert SCORE_LIMIT <= U128_MAX / 100;
    }
  }

  /** Saturation never changes the switch decision, on any scores, exactly when the
      margin addition does not wrap. */
  lemma BarExactIff(margin: u64)
    ensures margin <= U64_MAX - 100 <==>
            forall best, incumbent :: 0 <= best < SCORE_LIMIT && 0 <= incumbent < SCORE_LIMIT ==>
              SameDecision(best, incumbent, margin)
  {
    if margin <= U64_MAX - 100 {
      forall best, incumbent | 0 <= best < SCORE_LIMIT && 0 <= incumbent < SCORE_LIMIT
        ensures SameDecision(best, incumbent, margin)
      {
        BarExact(best, incumbent, margin);
      }
    } else {
      assert (100 + margin) % (U64_MAX + 1) == margin + 100 - (U64_MAX + 1) < 100;
      assert !SameDecision(1, 1, margin);
    }
  }

  function FindTie<T>(s: seq<Candidate<T>>, tie: seq<byte>): (r: Option<Candidate<T>>)
    ensures r.Some? ==> r.value in s && r.value.tie == tie
    ensures r.None? ==> forall c :: c in s ==> c.tie != tie
  {
    if s == [] then None else if s[0].tie == tie then Some(s[0]) else FindTie(s[1..], tie)
  }

  lemma FindFirstOfTwo<T(!new)>(s: seq<Candidate<T>>, tie: seq<byte>)
    requires |s| == 2 && s[0].tie == tie != s[1].tie
    ensures FindTie(StableSort(s, RankCmp), tie) == Some(s[0])
  {
    SortedRanking(s);
    assert s[0] in s;
    assert forall c :: c in s ==> c == s[0] || c == s[1];
  }

  /** The shared retention rule. */
  function Choose<T>(s: seq<Candidate<T>>, incumbent: Option<Candidate<T>>, margin: u64): (r: Candidate<T>)
    requires s != []
    requires forall c :: c in s ==> c.score <= U128_MAX
    requires incumbent.Some? ==> incumbent.value in s
    ensures r in s
  {
    match incumbent
    case None => Best(s)
    case Some(i) => if i.degraded || Best(s).score > ChallengerBar(i.score, margin) then Best(s) else i
  }

  /** Why the documented rule lets a choice leave the incumbent: it is gone, it is degraded,
      or the best offered score exceeds the margin over it, in unbounded integers. */
  ghost predicate Leavable<T>(s: seq<Candidate<T>>, incumbent: Option<Candidate<T>>, margin: nat)
    requires incumbent.Some? ==> s != []
  {
    || incumbent.None?
    || incumbent.value.degraded
    || Best(s).score > ExactBar(incumbent.value.score, margin)
  }

  /** The same with the machine's bar. */
  ghost predicate Left<T>(s: seq<Candidate<T>>, incumbent: Option<Candidate<T>>, margin: u64)
    requires incumbent.Some? ==> s != [] && incumbent.value.score <= U128_MAX
  {
    || incumbent.None?
    || incumbent.value.degraded
    || Best(s).score > ChallengerBar(incumbent.value.score, margin)
  }

  /** The machine leaves whenever the rule lets it; and, unless the margin addition wraps,
      only then. */
  lemma LeftMeans<T(!new)>(s: seq<Candidate<T>>, incumbent: Option<Candidate<T>>, margin: u64)
    requires forall c :: c in s ==> c.score < SCORE_LIMIT
    requires incumbent.Some? ==> incumbent.value in s
    ensures Leavable(s, incumbent, margin) ==> Left(s, incumbent, margin)
    ensures margin <= U64_MAX - 100 ==> (Left(s, incumbent, margin) <==> Leavable(s, incumbent, margin))
  {
    if incumbent.Some? {
      if margin <= U64_MAX - 100 {
        BarExact(Best(s).score, incumbent.value.score, margin);
      } else {
        WrappedBarLow(incumbent.value.score, margin);
      }
    }
  }

  /** A wrapped bar is below the score it should exceed, and so below the exact bar. */
  lemma WrappedBarLow(score: u128, margin: u64)
    requires margin > U64_MAX - 100 && score < SCORE_LIMIT
    ensures ChallengerBar(score, margin) <= score <= ExactBar(score, margin)
    ensures score > 0 ==> ChallengerBar(score, margin) < score
  {
    var factor := (100 + margin) % (U64_MAX + 1);
    assert factor == margin + 100 - (U64_MAX + 1) < 100;
    MulMonotone(score, score, factor, 99);
    MulMonotone(score, score, 100, 100 + margin);
    DivMonotone(score * factor, score * 99, 100);
    DivMonotone(score * 100, score * (100 + margin), 100);
    assert SCORE_LIMIT * 99 <= U128_MAX;
  }

  /** The identifier in use is kept exactly when it is not left or is the best one's; leaving
      goes to the best candidate. */
  lemma ChooseLeavesIff<T(!new)>(s: seq<Candidate<T>>, incumbent: Option<Candidate<T>>, tie: seq<byte>, margin: u64)
    requires s != [] && forall c :: c in s ==> c.score < SCORE_LIMIT
    requires incumbent.Some? ==> incumbent.value in s && incumbent.value.tie == tie
    requires incumbent.None? ==> forall c :: c in s ==> c.tie != tie
    ensures Choose(s, incumbent, margin).tie == tie <==> !Left(s, incumbent, margin) || Best(s).tie == tie
    ensures Choose(s, incumbent, margin).tie != tie ==> Choose(s, incumbent, margin) == Best(s)
  {
  }

  /** Choosing again, with the chosen candidate looked up by its identifier, chooses a
      candidate with that identifier. */
  lemma ChooseAgain<T(!new)>(s: seq<Candidate<T>>, lookup: seq<Candidate<T>>, prev: Option<seq<byte>>, margin: u64)
    requires s != [] && forall c :: c in s ==> c.score <= U128_MAX
    requires forall c :: c in lookup <==> c in s
    ensures var first := Choose(s, if prev.None? then None else FindTie(lookup, prev.value), margin);
            Choose(s, FindTie(lookup, first.tie), margin).tie == first.tie
  {
  }

  /** The choice depends only on the offered keys and the incumbent's key. */
  lemma SameChoice<A(!new), B(!new)>(s: seq<Candidate<A>>, t: seq<Candidate<B>>, suffix: seq<byte>,
                                     i: Option<Candidate<A>>, j: Option<Candidate<B>>, margin: u64)
    requires s != [] && t != [] && SameKeys(s, t, suffix)
    requires forall c :: c in s ==> c.score <= U128_MAX
    requires forall d :: d in t ==> d.score <= U128_MAX
    requires i.Some? ==> i.value in s
    requires j.Some? ==> j.value in t
    requires i.Some? == j.Some? && (i.Some? ==> SameKey(i.value, j.value, suffix))
    ensures Choose(s, i, margin).tie == Choose(t, j, margin).tie + suffix
    ensures Choose(s, i, margin).score == Choose(t, j, margin).score
  {
    SameWinner(s, t, suffix);
  }
}
