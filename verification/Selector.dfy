/** The weighted relay selector and its failover, over every roll the generator may give. */
module Selector {
  import opened Wrappers
  import opened Machine

  /** What selection reads of a relay. */
  datatype Relay = Relay(endpointId: Key32, country: string, weight: u64)

  /** A compiled query: an abstract predicate on relays. */
  type Query = Relay -> bool

  /** A random source: given a positive bound, a roll below it. */
  type Rng = nat -> nat

  ghost predicate InRange(rng: Rng) {
    forall t :: t > 0 ==> rng(t) < t
  }

  function Total(relays: seq<Relay>): nat {
    if relays == [] then 0 else relays[0].weight + Total(relays[1..])
  }

  /** The u128 total cannot overflow for any list that fits in memory. */
  lemma {:induction false} TotalFits(relays: seq<Relay>)
    requires |relays| <= U64_MAX
    ensures Total(relays) <= |relays| * U64_MAX < U128_MAX
  {
    if relays != [] {
      TotalFits(relays[1..]);
    }
  }

  /** The index a roll lands on. */
  function Landing(relays: seq<Relay>, roll: nat): (k: nat)
    requires roll < Total(relays)
    ensures k < |relays|
  {
    if roll < relays[0].weight then 0 else 1 + Landing(relays[1..], roll - relays[0].weight)
  }

  /** The subtracting loop; it always returns before running off the end. */
  method WeightedPick(candidates: seq<Relay>, rng: Rng) returns (r: Relay)
    requires Total(candidates) > 0 && InRange(rng)
    ensures rng(Total(candidates)) < Total(candidates)
    ensures r == candidates[Landing(candidates, rng(Total(candidates)))]
  {
    var total := 0;
    assert candidates[0..] == candidates;
    for i := 0 to |candidates|
      invariant total + Total(candidates[i..]) == Total(candidates)
    {
      assert candidates[i..][1..] == candidates[i + 1..];
      total := total + candidates[i].weight;
    }
    var roll: nat := rng(total);
    ghost var start := roll;
    for i := 0 to |candidates|
      invariant roll < Total(candidates[i..])
      invariant Landing(candidates, start) == i + Landing(candidates[i..], roll)
    {
      var w := candidates[i].weight;
      assert candidates[i..][1..] == candidates[i + 1..];
      if roll < w {
        return candidates[i];
      }
      roll := roll - w;
    }
    assert false;
  }

  /** A roll lands on candidate `i` exactly when it falls in the i-th weight interval. */
  lemma {:induction false} LandingIff(relays: seq<Relay>, roll: nat, i: nat)
    requires roll < Total(relays) && i < |relays|
    ensures Landing(relays, roll) == i <==> Total(relays[..i]) <= roll < Total(relays[..i]) + relays[i].weight
  {
    if i == 0 {
      assert relays[..0] == [];
    } else {
      assert relays[..i][1..] == relays[1..][..i - 1];
      if roll >= relays[0].weight {
        LandingIff(relays[1..], roll - relays[0].weight, i - 1);
      }
    }
  }

  /** The `n` numbers from `lo` on. */
  ghost function Interval(lo: nat, n: nat): (r: set<nat>)
    ensures |r| == n
    ensures forall x: nat :: x in r <==> lo <= x < lo + n
  {
    if n == 0 then {} else Interval(lo, n - 1) + {lo + n - 1}
  }

  lemma {:induction false} PrefixWithin(relays: seq<Relay>, i: nat)
    requires i < |relays|
    ensures Total(relays[..i]) + relays[i].weight <= Total(relays)
  {
    if i == 0 {
      assert relays[..0] == [];
    } else {
      assert relays[..i][1..] == relays[1..][..i - 1];
      PrefixWithin(relays[1..], i - 1);
    }
  }

  /** The rolls below the total that select candidate `i`. */
  ghost function RollsFor(relays: seq<Relay>, i: nat): set<nat> {
    set roll: nat | roll < Total(relays) && Landing(relays, roll) == i
  }

  /** Exactly proportional: of the rolls below the total, exactly weight(i) select `i`. */
  lemma ExactlyProportional(relays: seq<Relay>, i: nat)
    requires i < |relays|
    ensures |RollsFor(relays, i)| == relays[i].weight
  {
    var lo := Total(relays[..i]);
    PrefixWithin(relays, i);
    var rolls := RollsFor(relays, i);
    forall roll: nat ensures roll in rolls <==> roll in Interval(lo, relays[i].weight) {
      if roll < Total(relays) {
        LandingIff(relays, roll, i);
      }
    }
    assert rolls == Interval(lo, relays[i].weight);
  }

  // ---- the selections -------------------------------------------------------------------

  function Filter(relays: seq<Relay>, keep: Relay -> bool): (r: seq<Relay>)
    ensures forall x :: x in r <==> x in relays && keep(x)
  {
    if relays == [] then []
    else
      assert forall x :: x in relays <==> x == relays[0] || x in relays[1..];
      (if keep(relays[0]) then [relays[0]] else []) + Filter(relays[1..], keep)
  }

  /** The weight of the relays before position `i` that are kept. */
  function KeptBefore(relays: seq<Relay>, keep: Relay -> bool, i: nat): nat
    requires i <= |relays|
  {
    if i == 0 then 0
    else KeptBefore(relays, keep, i - 1) + (if keep(relays[i - 1]) then relays[i - 1].weight else 0)
  }

  /** A roll selects the kept relay at `i` in the whole list: it falls in that relay's weight
      after the weights of the kept relays before it. */
  ghost predicate Selected(relays: seq<Relay>, keep: Relay -> bool, roll: nat, i: nat) {
    && i < |relays| && keep(relays[i])
    && KeptBefore(relays, keep, i) <= roll < KeptBefore(relays, keep, i) + relays[i].weight
  }

  lemma {:induction false} KeptShift(relays: seq<Relay>, keep: Relay -> bool, i: nat)
    requires relays != [] && i < |relays|
    ensures KeptBefore(relays, keep, i + 1) ==
            (if keep(relays[0]) then relays[0].weight else 0) + KeptBefore(relays[1..], keep, i)
  {
    if i > 0 {
      KeptShift(relays, keep, i - 1);
    } else {
      assert KeptBefore(relays, keep, 0) == 0;
    }
  }

  /** Filtering keeps the total weight of the kept relays, and every roll lands on the relay
      whose interval in the whole list it falls in. */
  lemma {:induction false} FilterLanding(relays: seq<Relay>, keep: Relay -> bool, roll: nat) returns (i: nat)
    requires roll < Total(Filter(relays, keep))
    ensures Selected(relays, keep, roll, i) && relays[i] == Filter(relays, keep)[Landing(Filter(relays, keep), roll)]
  {
    var rest := Filter(relays[1..], keep);
    var w := if keep(relays[0]) then relays[0].weight else 0;
    FilterHead(relays, keep, roll);
    if roll < w {
      i := 0;
    } else {
      var m := FilterLanding(relays[1..], keep, roll - w);
      i := m + 1;
      KeptShift(relays, keep, m);
      assert relays[i] == relays[1..][m];
    }
  }

  lemma LandingCons(x: Relay, rest: seq<Relay>, roll: nat)
    requires roll < Total([x] + rest)
    ensures Total([x] + rest) == x.weight + Total(rest)
    ensures ([x] + rest)[Landing([x] + rest, roll)] ==
            if roll < x.weight then x else rest[Landing(rest, roll - x.weight)]
  {
    var all := [x] + rest;
    assert all[0] == x && all[1..] == rest;
  }

  /** Filtering the first relay in or out, seen from where a roll lands. */
  lemma FilterHead(relays: seq<Relay>, keep: Relay -> bool, roll: nat)
    requires relays != [] && roll < Total(Filter(relays, keep))
    ensures var (kept, rest) := (Filter(relays, keep), Filter(relays[1..], keep));
            var w := if keep(relays[0]) then relays[0].weight else 0;
            && Total(kept) == w + Total(rest)
            && kept[Landing(kept, roll)] == if roll < w then relays[0] else rest[Landing(rest, roll - w)]
  {
    var rest := Filter(relays[1..], keep);
    if keep(relays[0]) {
      LandingCons(relays[0], rest, roll);
    } else {
      assert [] + rest == rest;
    }
  }

  lemma {:induction false} FilterTotal(relays: seq<Relay>, keep: Relay -> bool)
    ensures Total(Filter(relays, keep)) == KeptBefore(relays, keep, |relays|)
  {
    if relays != [] {
      FilterTotal(relays[1..], keep);
      KeptShift(relays, keep, |relays| - 1);
      var rest := Filter(relays[1..], keep);
      assert ([relays[0]] + rest)[1..] == rest && [] + rest == rest;
    }
  }

  lemma PositiveTotal(relays: seq<Relay>)
    requires relays != [] && relays[0].weight > 0
    ensures Total(relays) > 0
  {
  }

  /** The relay a roll selects among those kept, when some are. */
  method PickKept(relays: seq<Relay>, keep: Relay -> bool, rng: Rng) returns (r: Option<Relay>)
    requires InRange(rng) && forall x :: keep(x) ==> x.weight > 0
    ensures r.None? <==> forall x :: x in relays ==> !keep(x)
    ensures r.Some? ==> r.value in relays && keep(r.value)
    ensures r.Some? ==>
              exists i: nat :: Selected(relays, keep, rng(KeptBefore(relays, keep, |relays|)), i) &&
                               r.value == relays[i]
  {
    var candidates := Filter(relays, keep);
    if candidates == [] {
      forall x | x in relays ensures !keep(x) {
        assert x !in candidates;
      }
      return None;
    }
    assert candidates[0] in candidates;
    PositiveTotal(candidates);
    var pick := WeightedPick(candidates, rng);
    FilterTotal(relays, keep);
    ghost var i := FilterLanding(relays, keep, rng(Total(candidates)));
    r := Some(pick);
  }

  /** The default: a positive-weight relay that matches, by the roll; nothing exactly when there
      is none. */
  method SelectWithRng(relays: seq<Relay>, query: Query, rng: Rng) returns (r: Option<Relay>)
    requires InRange(rng)
    ensures r.None? <==> forall x :: x in relays ==> !(x.weight > 0 && query(x))
    ensures r.Some? ==> r.value in relays && r.value.weight > 0 && query(r.value)
    ensures r.Some? ==>
              var keep := (x: Relay) => x.weight > 0 && query(x);
              exists i: nat :: Selected(relays, keep, rng(KeptBefore(relays, keep, |relays|)), i) &&
                               r.value == relays[i]
  {
    r := PickKept(relays, (x: Relay) => x.weight > 0 && query(x), rng);
  }

  /** A relay other than the excluded one, of positive weight, that matches. */
  function Alternatives(query: Query, excluded: Relay): Relay -> bool {
    (x: Relay) => x.endpointId != excluded.endpointId && x.weight > 0 && query(x)
  }

  function SameCountry(query: Query, excluded: Relay): Relay -> bool {
    (x: Relay) => x.endpointId != excluded.endpointId && x.country == excluded.country && x.weight > 0 && query(x)
  }

  /** Failover: never the excluded relay; in its country whenever a same-country alternative
      exists, by the roll among those; by the roll among all otherwise; nothing exactly when no
      alternative exists at all. */
  method SelectFailoverAlternative(relays: seq<Relay>, query: Query, excluded: Relay, rng: Rng)
    returns (r: Option<Relay>)
    requires InRange(rng)
    ensures r.None? <==>
            forall x :: x in relays ==> !(x.endpointId != excluded.endpointId && x.weight > 0 && query(x))
    ensures r.Some? ==>
              && r.value in relays && r.value.endpointId != excluded.endpointId
              && r.value.weight > 0 && query(r.value)
    ensures r.Some? && (exists x :: x in relays && x.endpointId != excluded.endpointId &&
                                    x.country == excluded.country && x.weight > 0 && query(x)) ==>
              r.value.country == excluded.country
    ensures r.Some? ==>
              var keep := if r.value.country == excluded.country then SameCountry(query, excluded)
                          else Alternatives(query, excluded);
              exists i: nat :: Selected(relays, keep, rng(KeptBefore(relays, keep, |relays|)), i) &&
                               r.value == relays[i]
  {
    r := PickKept(relays, SameCountry(query, excluded), rng);
    if r.None? {
      r := PickKept(relays, Alternatives(query, excluded), rng);
    }
  }
}
