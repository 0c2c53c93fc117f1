/** The fixed-point scoring rule of both selection views. */
module PathScore {
  import opened Wrappers
  import opened Machine
  import opened Ranking

  datatype PathAwareParams = PathAwareParams(
    neutralRttMs: u32,
    halfScoreRttMs: u32,
    degradedPenaltyDiv: u64,
    switchMarginPct: u64,
    staleAfterSecs: u64)

  const DEFAULT_PARAMS := PathAwareParams(60, 50, 8, 25, 600)

  const SCORE_SCALE: nat := 1_000_000

  /** The advisory sample of a leg: smoothed RTT and the degraded latch. */
  type LegSample = Option<(u32, bool)>

  function HalfScore(params: PathAwareParams): nat {
    AtLeastOne(params.halfScoreRttMs)
  }

  function WeightProduct(entryWeight: u64, exitWeight: u64): u64 {
    SaturateU64(AtLeastOne(entryWeight) * AtLeastOne(exitWeight))
  }

  /** `path_score`, saturating operation by saturating operation. */
  function Score(weight: u64, clientMs: u32, leg: LegSample, params: PathAwareParams): u128 {
    var (legMs, degraded) := leg.GetOr((params.neutralRttMs, false));
    var k := HalfScore(params);
    var cost := SaturateU128(clientMs + legMs);
    var s := SaturateU128(SaturateU128(weight * SCORE_SCALE) * k) / SaturateU128(k + cost);
    if degraded then s / AtLeastOne(params.degradedPenaltyDiv) else s
  }

  /** Weight times `K/(K + cost)`, in exact integers. */
  function Quotient(weight: nat, k: nat, cost: nat): nat
    requires k > 0
  {
    weight * (SCORE_SCALE * k) / (k + cost)
  }

  lemma QuotientBound(weight: nat, k: nat, cost: nat)
    requires k > 0
    ensures Quotient(weight, k, cost) <= weight * SCORE_SCALE
  {
    var top := weight * SCORE_SCALE;
    assert weight * (SCORE_SCALE * k) == top * k;
    MulMonotone(top, top, k, k + cost);
    DivMonotone(top * k, top * (k + cost), k + cost);
    DivUnique(top * (k + cost), k + cost, top, 0);
  }

  /** No saturation happens in `path_score`: it is the exact floored quotient, and it
      stays below 2^84. */
  lemma {:induction false} ScoreExact(weight: u64, clientMs: u32, leg: LegSample, params: PathAwareParams)
    ensures var (legMs, degraded) := leg.GetOr((params.neutralRttMs, false));
            var exact := Quotient(weight, HalfScore(params), clientMs + legMs);
            Score(weight, clientMs, leg, params) ==
            if degraded then exact / AtLeastOne(params.degradedPenaltyDiv) else exact
    ensures Score(weight, clientMs, leg, params) < SCORE_LIMIT
  {
    var (legMs, degraded) := leg.GetOr((params.neutralRttMs, false));
    var k := HalfScore(params);
    var top := weight * SCORE_SCALE;
    assert top < SCORE_LIMIT;
    MulMonotone(top, SCORE_LIMIT, k, U32_MAX);
    assert weight * (SCORE_SCALE * k) == top * k;
    QuotientBound(weight, k, clientMs + legMs);
    var q, d := Quotient(weight, k, clientMs + legMs), AtLeastOne(params.degradedPenaltyDiv);
    MulMonotone(q, q, 1, d);
    DivMonotone(q, q * d, d);
    DivUnique(q * d, d, q, 0);
  }

  /** More weight never lowers a score; a slower client hop or leg never raises it;
      the degraded latch never raises it. */
  lemma {:induction false} ScoreMonotone(weight: u64, weight': u64, clientMs: u32, clientMs': u32,
                                         legMs: u32, legMs': u32, degraded: bool, degraded': bool,
                                         params: PathAwareParams)
    requires weight <= weight' && clientMs' <= clientMs && legMs' <= legMs && (degraded' ==> degraded)
    ensures Score(weight, clientMs, Some((legMs, degraded)), params) <=
            Score(weight', clientMs', Some((legMs', degraded')), params)
  {
    ScoreExact(weight, clientMs, Some((legMs, degraded)), params);
    ScoreExact(weight', clientMs', Some((legMs', degraded')), params);
    var k, d := HalfScore(params), AtLeastOne(params.degradedPenaltyDiv);
    QuotientMonotone(weight, weight', k, clientMs + legMs, clientMs' + legMs');
    var q, q' := Quotient(weight, k, clientMs + legMs), Quotient(weight', k, clientMs' + legMs');
    DivMonotone(q, q', d);
    MulMonotone(q', q', 1, d);
    DivMonotone(q', q' * d, d);
    DivUnique(q' * d, d, q', 0);
  }

  lemma {:induction false} QuotientMonotone(weight: nat, weight': nat, k: nat, cost: nat, cost': nat)
    requires k > 0 && weight <= weight' && cost' <= cost
    ensures Quotient(weight, k, cost) <= Quotient(weight', k, cost')
  {
    var a, b := weight * (SCORE_SCALE * k), weight' * (SCORE_SCALE * k);
    MulMonotone(weight, weight', SCORE_SCALE * k, SCORE_SCALE * k);
    DivMonotone(a, b, k + cost);
    var q := b / (k + cost);
    MulMonotone(q, q, k + cost', k + cost);
    DivMonotone(q * (k + cost'), b, k + cost');
    DivUnique(q * (k + cost'), k + cost', q, 0);
  }

  /** The resolution the no-signal ranking needs to tell two weight products apart. */
  predicate EnoughResolution(params: PathAwareParams) {
    SCORE_SCALE * HalfScore(params) >= HalfScore(params) + 2 * params.neutralRttMs
  }

  /** The score of a candidate nothing is known about. */
  function NeutralScore(weight: u64, params: PathAwareParams): u128 {
    Score(weight, params.neutralRttMs, None, params)
  }

  lemma {:induction false} NeutralMonotone(v: u64, w: u64, params: PathAwareParams)
    requires v <= w
    ensures NeutralScore(v, params) <= NeutralScore(w, params)
  {
    ScoreMonotone(v, w, params.neutralRttMs, params.neutralRttMs, params.neutralRttMs, params.neutralRttMs,
                  false, false, params);
  }

  /** The no-signal score orders every two weight products strictly, exactly when the
      parameters leave enough resolution. */
  lemma {:induction false} NeutralStrictIff(params: PathAwareParams)
    ensures EnoughResolution(params) <==>
            forall v: u64, w: u64 :: v < w ==> NeutralScore(v, params) < NeutralScore(w, params)
  {
    var k := HalfScore(params);
    var m, d := SCORE_SCALE * k, k + 2 * params.neutralRttMs;
    if m >= d {
      forall v: u64, w: u64 | v < w ensures NeutralScore(v, params) < NeutralScore(w, params) {
        ScoreExact(v, params.neutralRttMs, None, params);
        ScoreExact(w, params.neutralRttMs, None, params);
        StrictAt(v, w, m, d);
      }
    } else {
      var at := CollapsePoint(params);
      assert at < at + 1;
    }
  }

  lemma {:induction false} StrictAt(v: nat, w: nat, m: nat, d: nat)
    requires v < w && 0 < d <= m
    ensures v * m / d < w * m / d
  {
    MulMonotone(v + 1, w, m, m);
    assert (v + 1) * m == v * m + m;
    DivMonotone(v * m + d, w * m, d);
    DivStep(v * m, d);
  }

  /** Without enough resolution, two adjacent weight products score alike. */
  lemma CollapsePoint(params: PathAwareParams) returns (d: u64)
    requires !EnoughResolution(params)
    ensures 0 < d < U64_MAX && NeutralScore(d, params) == NeutralScore(d + 1, params)
  {
    var k := HalfScore(params);
    d := k + 2 * params.neutralRttMs;
    ScoreExact(d, params.neutralRttMs, None, params);
    ScoreExact(d + 1, params.neutralRttMs, None, params);
    AdjacentQuotients(SCORE_SCALE * k, d);
  }

  lemma {:induction false} AdjacentQuotients(m: nat, d: nat)
    requires m < d
    ensures d * m / d == m && (d + 1) * m / d == m
  {
    assert (d + 1) * m == m * d + m;
    DivUnique(d * m, d, m, 0);
    DivUnique((d + 1) * m, d, m, m);
  }
}
