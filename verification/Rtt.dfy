/** The client-measured RTT store: an exponentially smoothed sample per endpoint,
    with one staleness rule, and what it holds over whole runs. */
module Rtt {
  import opened Wrappers
  import opened Machine

  const DEFAULT_RTT_TTL_SECS: u64 := 24 * 60 * 60

  datatype RttSample = RttSample(rttMs: u32, measuredAt: u64)

  type Samples = map<Key32, RttSample>

  /** Rust's `u32::midpoint`: the exact mean, rounded down. */
  function Midpoint(a: u32, b: u32): u32 {
    (a + b) / 2
  }

  function Age(s: RttSample, now: u64): u64 {
    SaturatingSub(now, s.measuredAt)
  }

  function FreshRtt(samples: Samples, id: Key32, now: u64, ttl: u64): Option<u32> {
    if id in samples && Age(samples[id], now) < ttl then Some(samples[id].rttMs) else None
  }

  function Recorded(samples: Samples, id: Key32, rtt: u32, now: u64): Samples {
    var smoothed := match FreshRtt(samples, id, now, DEFAULT_RTT_TTL_SECS)
                    case Some(prev) => Midpoint(prev, rtt)
                    case None => rtt;
    samples[id := RttSample(smoothed, now)]
  }

  function Pruned(samples: Samples, now: u64, ttl: u64): Samples {
    map k | k in samples && Age(samples[k], now) < ttl :: samples[k]
  }

  class RttCache {
    var samples: Samples

    constructor ()
      ensures samples == map[]
    {
      samples := map[];
    }

    method FreshRttMs(id: Key32, now: u64, ttl: u64) returns (r: Option<u32>)
      ensures r == FreshRtt(samples, id, now, ttl)
    {
      if id !in samples {
        return None;
      }
      var s := samples[id];
      var age := SaturatingSub(now, s.measuredAt);
      return if age < ttl then Some(s.rttMs) else None;
    }

    method Record(id: Key32, rtt: u32, now: u64)
      modifies this
      ensures samples == Recorded(old(samples), id, rtt, now)
      ensures samples.Keys == old(samples).Keys + {id}
      ensures forall other :: other in old(samples) && other != id ==> samples[other] == old(samples)[other]
    {
      var prev := FreshRttMs(id, now, DEFAULT_RTT_TTL_SECS);
      var smoothed := rtt;
      if prev.Some? {
        smoothed := Midpoint(prev.value, rtt);
      }
      samples := samples[id := RttSample(smoothed, now)];
    }

    method Prune(now: u64, ttl: u64)
      modifies this
      ensures samples == Pruned(old(samples), now, ttl)
      ensures forall k :: k in samples <==>
                k in old(samples) &&
                (if now < old(samples)[k].measuredAt then 0 else now - old(samples)[k].measuredAt) < ttl
      ensures forall k :: k in samples ==> samples[k] == old(samples)[k]
    {
      samples := map k | k in samples && SaturatingSub(now, samples[k].measuredAt) < ttl :: samples[k];
    }
  }

  /** A read succeeds exactly while `now < measuredAt + ttl`, and never with a zero TTL;
      a clock behind the sample reads it as brand new. */
  lemma FreshIff(samples: Samples, id: Key32, now: u64, ttl: u64, v: u32)
    ensures FreshRtt(samples, id, now, ttl) == Some(v) <==>
            id in samples && samples[id].rttMs == v && 0 < ttl && now < samples[id].measuredAt + ttl
  {
  }

  // ---- runs ---------------------------------------------------------------

  datatype Op = Record(id: Key32, rtt: u32, now: u64) | Prune(now: u64, ttl: u64)

  function Apply(samples: Samples, op: Op): Samples {
    match op
    case Record(id, rtt, now) => Recorded(samples, id, rtt, now)
    case Prune(now, ttl) => Pruned(samples, now, ttl)
  }

  function Replay(samples: Samples, ops: seq<Op>): Samples {
    if ops == [] then samples else Apply(Replay(samples, ops[..|ops| - 1]), ops[|ops| - 1])
  }

  /** The samples recorded for `id` since the last stale gap, and the time of the last. */
  ghost function Window(ops: seq<Op>, id: Key32): Option<(seq<u32>, u64)> {
    if ops == [] then None
    else
      var before := Window(ops[..|ops| - 1], id);
      match ops[|ops| - 1]
      case Prune(_, _) => before
      case Record(id', rtt, now) =>
        if id' != id then before
        else if before.Some? && SaturatingSub(now, before.value.1) < DEFAULT_RTT_TTL_SECS
        then Some((before.value.0 + [rtt], now))
        else Some(([rtt], now))
  }

  /** The record at `r` is what the store holds of its endpoint: nothing later in the run is
      a record of that endpoint, or a prune that finds it too old. */
  ghost predicate Holds(ops: seq<Op>, id: Key32, r: nat) {
    && r < |ops| && ops[r].Record? && ops[r].id == id
    && forall j :: r < j < |ops| ==>
         match ops[j]
         case Record(other, _, _) => other != id
         case Prune(now, ttl) => (if now < ops[r].now then 0 else now - ops[r].now) < ttl
  }

  lemma {:induction false} HeldByRecord(ops: seq<Op>, id: Key32) returns (r: nat)
    ensures id in Replay(map[], ops) ==> Holds(ops, id, r) && Replay(map[], ops)[id].measuredAt == ops[r].now
    ensures id !in Replay(map[], ops) ==> forall m: nat :: !Holds(ops, id, m)
  {
    r := 0;
    if ops != [] {
      var init, last := ops[..|ops| - 1], ops[|ops| - 1];
      var before := HeldByRecord(init, id);
      if last.Record? && last.id == id {
        r := |ops| - 1;
      } else {
        r := before;
        forall m: nat ensures Holds(ops, id, m) <==> Holds(init, id, m) && Survives(init, m, last) {
          HoldsLonger(ops, id, m);
        }
      }
    }
  }

  /** The last operation leaves the record at `m` in the store. */
  ghost predicate Survives(init: seq<Op>, m: nat, last: Op) {
    m < |init| && (last.Prune? ==> (if last.now < init[m].now then 0 else last.now - init[m].now) < last.ttl)
  }

  lemma HoldsLonger(ops: seq<Op>, id: Key32, m: nat)
    requires ops != [] && !(ops[|ops| - 1].Record? && ops[|ops| - 1].id == id)
    ensures Holds(ops, id, m) <==> Holds(ops[..|ops| - 1], id, m) && Survives(ops[..|ops| - 1], m, ops[|ops| - 1])
  {
    var init := ops[..|ops| - 1];
    assert forall j :: 0 <= j < |init| ==> ops[j] == init[j];
  }

  /** A read with any TTL succeeds exactly when the run has a record of the endpoint that is
      still held and younger than the TTL: what happens to other endpoints does not matter. */
  lemma {:induction false} ReadIff(ops: seq<Op>, id: Key32, now: u64, ttl: u64)
    ensures FreshRtt(Replay(map[], ops), id, now, ttl).Some? <==>
            exists r: nat :: Holds(ops, id, r) && (if now < ops[r].now then 0 else now - ops[r].now) < ttl
  {
    var r := HeldByRecord(ops, id);
    forall m: nat | Holds(ops, id, m) ensures m == r {
      if id in Replay(map[], ops) {
        HeldOnce(ops, id, r, m);
      }
    }
  }

  lemma HeldOnce(ops: seq<Op>, id: Key32, r: nat, m: nat)
    requires Holds(ops, id, r) && Holds(ops, id, m)
    ensures r == m
  {
    assert ops[r].Record? && ops[m].Record?;
  }

  /** What a record stores: the floored mean with the sample it finds, if that is younger than
      a day; its own value otherwise. Every other endpoint keeps its sample. */
  lemma RecordMeans(samples: Samples, id: Key32, rtt: u32, now: u64)
    ensures var after := Apply(samples, Record(id, rtt, now));
            && after.Keys == samples.Keys + {id}
            && (forall other :: other in samples && other != id ==> after[other] == samples[other])
            && after[id].measuredAt == now
            && after[id].rttMs ==
               if id in samples && now < samples[id].measuredAt + 86_400 then (samples[id].rttMs + rtt) / 2 else rtt
  {
  }

  ghost predicate Between(v: u32, window: seq<u32>) {
    exists lo, hi :: lo in window && hi in window && lo <= v <= hi
  }

  /** Over every run, whatever the clock and the prunes, a stored value lies between
      two samples recorded for that endpoint since its last stale gap. */
  lemma {:induction false} StoredBetweenSamples(ops: seq<Op>, id: Key32)
    requires id in Replay(map[], ops)
    ensures Window(ops, id).Some?
    ensures Replay(map[], ops)[id].measuredAt == Window(ops, id).value.1
    ensures Between(Replay(map[], ops)[id].rttMs, Window(ops, id).value.0)
  {
    var init, last := ops[..|ops| - 1], ops[|ops| - 1];
    var before := Replay(map[], init);
    if id in before {
      StoredBetweenSamples(init, id);
    }
    if last.Record? && last.id == id {
      var window := Window(ops, id).value.0;
      assert last.rtt in window;
      if id in before && Age(before[id], last.now) < DEFAULT_RTT_TTL_SECS {
        var earlier := Window(init, id).value.0;
        var lo, hi :| lo in earlier && hi in earlier && lo <= before[id].rttMs <= hi;
        assert window == earlier + [last.rtt];
        assert lo in window && hi in window;
        var v := Midpoint(before[id].rttMs, last.rtt);
        assert (if lo < last.rtt then lo else last.rtt) <= v <= (if hi < last.rtt then last.rtt else hi);
      }
    }
  }

  // ---- convergence ----------------------------------------------------------

  function Pow2(n: nat): (p: nat)
    ensures p > 0
  {
    if n == 0 then 1 else 2 * Pow2(n - 1)
  }

  function CeilDiv(a: nat, b: nat): nat
    requires b > 0
  {
    (a + b - 1) / b
  }

  lemma {:induction false} HalveThenDivide(d: nat, p: nat)
    requires p > 0
    ensures (d / 2) / p == d / (2 * p)
    ensures CeilDiv(CeilDiv(d, 2), p) == CeilDiv(d, 2 * p)
  {
    HalveFloor(d, p);
    if d > 0 {
      HalveFloor(d - 1, p);
      CeilIsFloorOfPred(d, 2);
      CeilIsFloorOfPred(d, 2 * p);
      CeilIsFloorOfPred((d - 1) / 2 + 1, p);
    } else {
      assert CeilDiv(0, 2) == 0;
      DivUnique(p - 1, p, 0, p - 1);
      DivUnique(2 * p - 1, 2 * p, 0, 2 * p - 1);
    }
  }

  lemma {:induction false} HalveFloor(d: nat, p: nat)
    requires p > 0
    ensures (d / 2) / p == d / (2 * p)
  {
    var h := d / 2;
    var q, r := h / p, h % p;
    assert h == q * p + r;
    assert d == q * (2 * p) + (2 * r + d % 2);
    DivUnique(d, 2 * p, q, 2 * r + d % 2);
  }

  lemma {:induction false} CeilIsFloorOfPred(d: nat, p: nat)
    requires d > 0 && p > 0
    ensures CeilDiv(d, p) == (d - 1) / p + 1
  {
    DivStep(d - 1, p);
  }

  /** `n` samples of the same value `v`, one after another. */
  function RecordMany(samples: Samples, id: Key32, v: u32, times: seq<u64>): Samples
    decreases |times|
  {
    if times == [] then samples else RecordMany(Recorded(samples, id, v, times[0]), id, v, times[1..])
  }

  /** Every sample is within one TTL of the previous one. */
  ghost predicate NoGap(from: u64, times: seq<u64>)
    decreases |times|
  {
    times != [] ==> SaturatingSub(times[0], from) < DEFAULT_RTT_TTL_SECS && NoGap(times[0], times[1..])
  }

  lemma {:induction false} MidpointHalves(x: u32, v: u32, p: nat)
    requires p > 0
    ensures x >= v ==> Midpoint(x, v) >= v && (Midpoint(x, v) - v) / p == (x - v) / (2 * p)
    ensures x <= v ==> Midpoint(x, v) <= v && CeilDiv(v - Midpoint(x, v), p) == CeilDiv(v - x, 2 * p)
  {
    if x >= v {
      HalveThenDivide(x - v, p);
      assert Midpoint(x, v) - v == (x - v) / 2;
    }
    if x <= v {
      HalveThenDivide(v - x, p);
      assert v - Midpoint(x, v) == CeilDiv(v - x, 2);
    }
  }

  /** Agreeing samples shrink the distance from above to ⌊d/2ⁿ⌋. */
  lemma {:induction false} ConvergesFromAbove(samples: Samples, id: Key32, v: u32, times: seq<u64>)
    requires id in samples && NoGap(samples[id].measuredAt, times) && samples[id].rttMs >= v
    ensures id in RecordMany(samples, id, v, times)
    ensures RecordMany(samples, id, v, times)[id].rttMs == v + (samples[id].rttMs - v) / Pow2(|times|)
    decreases |times|
  {
    if times != [] {
      var next := Recorded(samples, id, v, times[0]);
      assert next[id] == RttSample(Midpoint(samples[id].rttMs, v), times[0]);
      MidpointHalves(samples[id].rttMs, v, Pow2(|times| - 1));
      ConvergesFromAbove(next, id, v, times[1..]);
    }
  }

  /** From below it shrinks to ⌈d/2ⁿ⌉, so the store settles one millisecond short. */
  lemma {:induction false} ConvergesFromBelow(samples: Samples, id: Key32, v: u32, times: seq<u64>)
    requires id in samples && NoGap(samples[id].measuredAt, times) && samples[id].rttMs <= v
    ensures id in RecordMany(samples, id, v, times)
    ensures RecordMany(samples, id, v, times)[id].rttMs + CeilDiv(v - samples[id].rttMs, Pow2(|times|)) == v
    decreases |times|
  {
    if times != [] {
      var next := Recorded(samples, id, v, times[0]);
      assert next[id] == RttSample(Midpoint(samples[id].rttMs, v), times[0]);
      MidpointHalves(samples[id].rttMs, v, Pow2(|times| - 1));
      ConvergesFromBelow(next, id, v, times[1..]);
    }
  }

  /** One millisecond short is where it stays, however many agreeing samples follow. */
  lemma SettlesOneShort(samples: Samples, id: Key32, v: u32, times: seq<u64>)
    requires id in samples && NoGap(samples[id].measuredAt, times) && samples[id].rttMs + 1 == v
    ensures id in RecordMany(samples, id, v, times)
    ensures RecordMany(samples, id, v, times)[id].rttMs + 1 == v
  {
    ConvergesFromBelow(samples, id, v, times);
    DivUnique(Pow2(|times|), Pow2(|times|), 1, 0);
  }

  // ---- pruning is invisible --------------------------------------------------

  /** The run without its prunes. */
  function WithoutPrunes(ops: seq<Op>): seq<Op> {
    if ops == [] then []
    else WithoutPrunes(ops[..|ops| - 1]) + (if ops[|ops| - 1].Prune? then [] else [ops[|ops| - 1]])
  }

  ghost predicate ClockNonDecreasing(ops: seq<Op>) {
    forall i, j :: 0 <= i < j < |ops| ==> ops[i].now <= ops[j].now
  }

  /** The two stores hold the same samples, but for some stale at `now`. */
  ghost predicate SameWhenFresh(pruned: Samples, kept: Samples, now: u64) {
    && (forall k :: k in pruned ==> k in kept && pruned[k] == kept[k])
    && (forall k :: k in kept && k !in pruned ==> Age(kept[k], now) >= DEFAULT_RTT_TTL_SECS)
  }

  lemma ReadsAgree(pruned: Samples, kept: Samples, id: Key32, now: u64, ttl: u64)
    requires SameWhenFresh(pruned, kept, now) && ttl <= DEFAULT_RTT_TTL_SECS
    ensures FreshRtt(pruned, id, now, ttl) == FreshRtt(kept, id, now, ttl)
  {
  }

  lemma StaysSame(pruned: Samples, kept: Samples, op: Op, now: u64)
    requires SameWhenFresh(pruned, kept, op.now) && op.now <= now
    requires op.Prune? ==> op.ttl >= DEFAULT_RTT_TTL_SECS
    ensures SameWhenFresh(Apply(pruned, op), if op.Prune? then kept else Apply(kept, op), now)
  {
    if op.Record? {
      ReadsAgree(pruned, kept, op.id, op.now, DEFAULT_RTT_TTL_SECS);
    }
  }

  /** On any run with a non-decreasing clock, prunes with a TTL of at least the default
      change no record outcome and no later read with a TTL up to the default. */
  lemma {:induction false} PruneInvisible(ops: seq<Op>, now: u64)
    requires ClockNonDecreasing(ops) && (ops != [] ==> ops[|ops| - 1].now <= now)
    requires forall op :: op in ops && op.Prune? ==> op.ttl >= DEFAULT_RTT_TTL_SECS
    ensures SameWhenFresh(Replay(map[], ops), Replay(map[], WithoutPrunes(ops)), now)
    ensures forall id, ttl: u64 :: ttl <= DEFAULT_RTT_TTL_SECS ==>
              FreshRtt(Replay(map[], ops), id, now, ttl) == FreshRtt(Replay(map[], WithoutPrunes(ops)), id, now, ttl)
  {
    if ops != [] {
      var init, last := ops[..|ops| - 1], ops[|ops| - 1];
      PruneInvisible(init, last.now);
      var kept := WithoutPrunes(init);
      StaysSame(Replay(map[], init), Replay(map[], kept), last, now);
      assert (kept + [last])[..|kept|] == kept && kept + [] == kept;
    }
  }

  /** Pruning with this TTL is housekeeping: it changes no read up to the default TTL, on any
      run with a non-decreasing clock. */
  ghost predicate Housekeeping(ttl: u64) {
    forall ops: seq<Op>, now: u64, id: Key32, read: u64 ::
      ClockNonDecreasing(ops) && (ops != [] ==> ops[|ops| - 1].now <= now) && read <= DEFAULT_RTT_TTL_SECS &&
      (forall op :: op in ops && op.Prune? ==> op.ttl == ttl) ==>
        FreshRtt(Replay(map[], ops), id, now, read) == FreshRtt(Replay(map[], WithoutPrunes(ops)), id, now, read)
  }

  /** A shorter TTL drops a sample that a read would still return. */
  lemma {:induction false} ShortPruneSeen(ttl: u64, id: Key32)
    requires ttl < DEFAULT_RTT_TTL_SECS
    ensures var ops := [Record(id, 1, 0), Prune(ttl, ttl)];
            && ClockNonDecreasing(ops)
            && FreshRtt(Replay(map[], ops), id, ttl, DEFAULT_RTT_TTL_SECS) == None
            && FreshRtt(Replay(map[], WithoutPrunes(ops)), id, ttl, DEFAULT_RTT_TTL_SECS) == Some(1)
  {
    var one := [Record(id, 1, 0)];
    var ops := one + [Prune(ttl, ttl)];
    assert ops == [Record(id, 1, 0), Prune(ttl, ttl)];
    ReplayOne(id);
    assert ops[..1] == one;
    assert WithoutPrunes(ops) == WithoutPrunes(one) + [] == one;
  }

  lemma {:induction false} ReplayOne(id: Key32)
    ensures WithoutPrunes([Record(id, 1, 0)]) == [Record(id, 1, 0)]
    ensures Replay(map[], [Record(id, 1, 0)]) == map[id := RttSample(1, 0)]
  {
    assert [Record(id, 1, 0)][..0] == [];
  }

  /** Pruning is optional housekeeping exactly for a TTL of at least the default. */
  lemma HousekeepingIff(ttl: u64)
    ensures Housekeeping(ttl) <==> ttl >= DEFAULT_RTT_TTL_SECS
  {
    if ttl >= DEFAULT_RTT_TTL_SECS {
      forall ops: seq<Op>, now: u64, id: Key32, read: u64
        | ClockNonDecreasing(ops) && (ops != [] ==> ops[|ops| - 1].now <= now) && read <= DEFAULT_RTT_TTL_SECS &&
          (forall op :: op in ops && op.Prune? ==> op.ttl == ttl)
        ensures FreshRtt(Replay(map[], ops), id, now, read) ==
                FreshRtt(Replay(map[], WithoutPrunes(ops)), id, now, read)
      {
        PruneInvisible(ops, now);
      }
    } else {
      var id: Key32 := seq(32, _ => 0);
      ShortPruneSeen(ttl, id);
    }
  }

  /** In particular every record stores the same sample, with or without the prunes. */
  lemma {:induction false} RecordOutcomeSame(ops: seq<Op>, id: Key32, rtt: u32, now: u64)
    requires ClockNonDecreasing(ops) && (ops != [] ==> ops[|ops| - 1].now <= now)
    requires forall op :: op in ops && op.Prune? ==> op.ttl >= DEFAULT_RTT_TTL_SECS
    ensures Recorded(Replay(map[], ops), id, rtt, now)[id] ==
            Recorded(Replay(map[], WithoutPrunes(ops)), id, rtt, now)[id]
  {
    PruneInvisible(ops, now);
  }
}
