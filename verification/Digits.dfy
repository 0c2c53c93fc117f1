/** Positional notation, most significant digit first, in any base: the arithmetic
    under base58, hexadecimal bytes and printed decimals. */
module Digits {
  import opened Machine

  function Pow(b: nat, n: nat): nat {
    if n == 0 then 1 else b * Pow(b, n - 1)
  }

  /** The digits of `n`, without leading zeros. */
  function DigitsOf(n: nat, base: nat): seq<nat>
    requires base >= 2
  {
    if n == 0 then [] else DigitsOf(n / base, base) + [n % base]
  }

  function Value(ds: seq<nat>, base: nat): nat {
    if ds == [] then 0 else Value(ds[..|ds| - 1], base) * base + ds[|ds| - 1]
  }

  ghost predicate Below(ds: seq<nat>, base: nat) {
    forall i :: 0 <= i < |ds| ==> ds[i] < base
  }

  function LeadingZeros(ds: seq<nat>): nat {
    if ds == [] || ds[0] != 0 then 0 else 1 + LeadingZeros(ds[1..])
  }

  function Zeros(n: nat): (r: seq<nat>)
    ensures |r| == n
  {
    seq(n, _ => 0)
  }

  /** Base conversion that keeps leading zeros one for one. */
  function Convert(ds: seq<nat>, from: nat, to: nat): seq<nat>
    requires to >= 2
  {
    Zeros(LeadingZeros(ds)) + DigitsOf(Value(ds, from), to)
  }

  /** The last digit and the rest. */
  lemma {:induction false} Split(n: nat, base: nat) returns (q: nat, r: nat)
    requires base >= 2 && n > 0
    ensures q < n && r < base && n == q * base + r && q == n / base && r == n % base
    ensures DigitsOf(n, base) == DigitsOf(q, base) + [r]
  {
    q, r := n / base, n % base;
    DivUnique(n, base, q, r);
  }

  lemma {:induction false} Append(q: nat, r: nat, base: nat)
    requires base >= 2 && r < base && q + r > 0
    ensures DigitsOf(q * base + r, base) == DigitsOf(q, base) + [r]
  {
    DivUnique(q * base + r, base, q, r);
    assert q > 0 ==> q * base > 0;
  }

  lemma {:induction false} DigitsBelow(n: nat, base: nat)
    requires base >= 2
    ensures Below(DigitsOf(n, base), base)
  {
    if n > 0 {
      var q, r := Split(n, base);
      DigitsBelow(q, base);
    }
  }

  lemma {:induction false} FirstDigit(n: nat, base: nat)
    requires base >= 2 && n > 0
    ensures |DigitsOf(n, base)| > 0 && DigitsOf(n, base)[0] != 0
  {
    var q, r := Split(n, base);
    if q > 0 {
      FirstDigit(q, base);
    }
  }

  lemma {:induction false} ValueOfDigits(n: nat, base: nat)
    requires base >= 2
    ensures Value(DigitsOf(n, base), base) == n
  {
    if n > 0 {
      var q, r := Split(n, base);
      ValueOfDigits(q, base);
      assert (DigitsOf(q, base) + [r])[..|DigitsOf(q, base)|] == DigitsOf(q, base);
    }
  }

  lemma {:induction false} ValueWithZeros(z: nat, ds: seq<nat>, base: nat)
    ensures Value(Zeros(z) + ds, base) == Value(ds, base)
  {
    if ds == [] {
      assert Zeros(z) + ds == Zeros(z);
      if z > 0 {
        assert Zeros(z)[..z - 1] == Zeros(z - 1) + [];
        ValueWithZeros(z - 1, [], base);
      }
    } else {
      assert (Zeros(z) + ds)[..|Zeros(z) + ds| - 1] == Zeros(z) + ds[..|ds| - 1];
      ValueWithZeros(z, ds[..|ds| - 1], base);
    }
  }

  lemma {:induction false} LeadingZerosOf(z: nat, ds: seq<nat>)
    requires ds == [] || ds[0] != 0
    ensures LeadingZeros(Zeros(z) + ds) == z
  {
    if z > 0 {
      assert (Zeros(z) + ds)[1..] == Zeros(z - 1) + ds;
      LeadingZerosOf(z - 1, ds);
    } else {
      assert Zeros(z) + ds == ds;
    }
  }

  /** A digit string is its leading zeros and the digits of its value. */
  lemma {:induction false} Canonical(ds: seq<nat>, base: nat)
    requires base >= 2 && Below(ds, base)
    ensures ds == Zeros(LeadingZeros(ds)) + DigitsOf(Value(ds, base), base)
    decreases |ds|
  {
    if ds == [] {
    } else if ds[0] == 0 {
      Canonical(ds[1..], base);
      assert ds == Zeros(1) + ds[1..];
      ValueWithZeros(1, ds[1..], base);
      assert Zeros(LeadingZeros(ds)) == Zeros(1) + Zeros(LeadingZeros(ds[1..]));
    } else {
      CanonicalNonZero(ds, base);
    }
  }

  lemma {:induction false} CanonicalNonZero(ds: seq<nat>, base: nat)
    requires base >= 2 && Below(ds, base) && ds != [] && ds[0] != 0
    ensures Value(ds, base) > 0 && ds == DigitsOf(Value(ds, base), base)
  {
    var init, last := ds[..|ds| - 1], ds[|ds| - 1];
    assert ds == init + [last];
    if init != [] {
      assert init[0] == ds[0];
      CanonicalNonZero(init, base);
    }
    LastDigit(init, last, base);
  }

  /** One more digit after the digits of a value. */
  lemma LastDigit(init: seq<nat>, last: nat, base: nat)
    requires base >= 2 && last < base
    requires init == DigitsOf(Value(init, base), base) && Value(init, base) + last > 0
    ensures Value(init + [last], base) == Value(init, base) * base + last > 0
    ensures init + [last] == DigitsOf(Value(init + [last], base), base)
  {
    var v, ds := Value(init, base), init + [last];
    assert ds[..|ds| - 1] == init && ds[|ds| - 1] == last;
    Append(v, last, base);
    assert v > 0 ==> v * base > 0;
  }

  /** Converting there and back is the identity. */
  lemma ConvertRoundTrip(ds: seq<nat>, from: nat, to: nat)
    requires from >= 2 && to >= 2 && Below(ds, from)
    ensures Below(Convert(ds, from, to), to)
    ensures Convert(Convert(ds, from, to), to, from) == ds
  {
    var z, digits := LeadingZeros(ds), DigitsOf(Value(ds, from), to);
    DigitsBelow(Value(ds, from), to);
    if Value(ds, from) > 0 {
      FirstDigit(Value(ds, from), to);
    }
    LeadingZerosOf(z, digits);
    ValueWithZeros(z, digits, to);
    ValueOfDigits(Value(ds, from), to);
    Canonical(ds, from);
  }

  /** Conversion keeps the number and the leading zeros. */
  lemma ConvertMeans(ds: seq<nat>, from: nat, to: nat)
    requires from >= 2 && to >= 2 && Below(ds, from)
    ensures Value(Convert(ds, from, to), to) == Value(ds, from)
    ensures LeadingZeros(Convert(ds, from, to)) == LeadingZeros(ds)
  {
    var z, v := LeadingZeros(ds), Value(ds, from);
    DigitsBelow(v, to);
    if v > 0 {
      FirstDigit(v, to);
    }
    LeadingZerosOf(z, DigitsOf(v, to));
    ValueWithZeros(z, DigitsOf(v, to), to);
    ValueOfDigits(v, to);
  }

  // ---- the digit loops ----------------------------------------------------------

  /** `ds * mult + carry`, digit by digit from the right. */
  function MulAdd(ds: seq<nat>, mult: nat, carry: nat, base: nat): seq<nat>
    requires base >= 2
  {
    if ds == [] then DigitsOf(carry, base)
    else
      var t := carry + ds[|ds| - 1] * mult;
      MulAdd(ds[..|ds| - 1], mult, t / base, base) + [t % base]
  }

  /** The step of `MulAdd` on the last of `k + 1` digits. */
  lemma MulAddStep(digits: seq<nat>, k: nat, mult: nat, carry: nat, base: nat) returns (d: nat, c: nat)
    requires base >= 2 && k < |digits|
    ensures d == (carry + digits[k] * mult) % base && c == (carry + digits[k] * mult) / base
    ensures d < base && carry + digits[k] * mult == c * base + d
    ensures MulAdd(digits[..k + 1], mult, carry, base) == MulAdd(digits[..k], mult, c, base) + [d]
  {
    var t := carry + digits[k] * mult;
    d, c := t % base, t / base;
    DivUnique(t, base, c, d);
    assert digits[..k + 1][..k] == digits[..k];
  }

  lemma {:induction false} MulAddExact(n: nat, mult: nat, carry: nat, base: nat)
    requires base >= 2 && mult >= 1
    ensures MulAdd(DigitsOf(n, base), mult, carry, base) == DigitsOf(n * mult + carry, base)
    decreases n
  {
    if n > 0 {
      var q, r := Split(n, base);
      var d, c := MulAddLast(DigitsOf(q, base), r, mult, carry, base);
      MulAddExact(q, mult, c, base);
      CarryDigits(q, r, n, mult, carry, base, c, d);
    }
  }

  /** The last digit of a product, and the carry into the rest. */
  lemma CarryDigits(q: nat, r: nat, n: nat, mult: nat, carry: nat, base: nat, c: nat, d: nat)
    requires base >= 2 && mult >= 1 && n == q * base + r && n > 0
    requires d < base && carry + r * mult == c * base + d
    ensures DigitsOf(n * mult + carry, base) == DigitsOf(q * mult + c, base) + [d]
  {
    Carry(q, r, n, mult, carry, base, c, d);
    var m := q * mult + c;
    Append(m, d, base);
  }

  /** The step of `MulAdd` on `ds` followed by a last digit. */
  lemma MulAddLast(ds: seq<nat>, last: nat, mult: nat, carry: nat, base: nat) returns (d: nat, c: nat)
    requires base >= 2
    ensures d < base && carry + last * mult == c * base + d
    ensures MulAdd(ds + [last], mult, carry, base) == MulAdd(ds, mult, c, base) + [d]
  {
    var all := ds + [last];
    assert all[..|ds|] == ds && all[..|ds| + 1] == all;
    d, c := MulAddStep(all, |ds|, mult, carry, base);
  }

  lemma Carry(q: nat, r: nat, n: nat, mult: nat, carry: nat, base: nat, c: nat, d: nat)
    requires base >= 2 && mult >= 1 && n == q * base + r && n > 0
    requires carry + r * mult == c * base + d
    ensures n * mult + carry == (q * mult + c) * base + d
    ensures (q * mult + c) + d > 0
  {
    assert n * mult == q * base * mult + r * mult;
    assert q * base * mult == q * mult * base;
    assert (q * mult + c) * base == q * mult * base + c * base;
    assert r > 0 ==> r * mult > 0;
    assert q > 0 ==> q * mult > 0;
  }

  /** One step of a base conversion: multiply the digits in place, then push the carry. */
  method MulAddInPlace(digits: seq<nat>, mult: nat, add: nat, base: nat) returns (r: seq<nat>)
    requires base >= 2 && mult >= 1
    ensures r == MulAdd(digits, mult, add, base)
  {
    var carry: nat := add;
    r := digits;
    var k := |digits|;
    assert digits[..k] == digits;
    while k > 0
      invariant 0 <= k <= |digits| == |r|
      invariant r[..k] == digits[..k]
      invariant MulAdd(digits[..k], mult, carry, base) + r[k..] == MulAdd(digits, mult, add, base)
    {
      ghost var d', c' := MulAddStep(digits, k - 1, mult, carry, base);
      ghost var tail := r[k..];
      k := k - 1;
      assert r[k] == digits[..k + 1][k];
      var t := carry + r[k] * mult;
      r := r[k := t % base];
      carry := t / base;
      assert r[k..] == [d'] + tail;
      assert MulAdd(digits[..k], mult, c', base) + [d'] + tail == MulAdd(digits[..k], mult, c', base) + ([d'] + tail);
    }
    assert r[0..] == r && digits[..0] == [];
    r := PushCarry(r, carry, base);
  }

  method PushCarry(digits: seq<nat>, add: nat, base: nat) returns (r: seq<nat>)
    requires base >= 2
    ensures r == DigitsOf(add, base) + digits
  {
    r := digits;
    var carry: nat := add;
    while carry > 0
      invariant DigitsOf(carry, base) + r == DigitsOf(add, base) + digits
    {
      ghost var q, d := Split(carry, base);
      assert DigitsOf(carry / base, base) + [carry % base] + r == DigitsOf(carry / base, base) + ([carry % base] + r);
      r := [carry % base] + r;
      carry := carry / base;
    }
  }

  /** Base conversion as base58 does it: fold the digits in, then restore the leading zeros. */
  method ConvertDigits(ds: seq<nat>, from: nat, to: nat) returns (r: seq<nat>)
    requires from >= 1 && to >= 2
    ensures r == Convert(ds, from, to)
  {
    r := [];
    for i := 0 to |ds|
      invariant r == DigitsOf(Value(ds[..i], from), to)
    {
      assert ds[..i + 1][..i] == ds[..i];
      MulAddExact(Value(ds[..i], from), from, ds[i], to);
      r := MulAddInPlace(r, from, ds[i], to);
    }
    assert ds[..|ds|] == ds;
    r := PushZeros(ds, r);
  }

  method PushZeros(ds: seq<nat>, digits: seq<nat>) returns (r: seq<nat>)
    ensures r == Zeros(LeadingZeros(ds)) + digits
  {
    r := digits;
    var z := 0;
    assert ds[0..] == ds;
    while z < |ds| && ds[z] == 0
      invariant 0 <= z <= |ds|
      invariant LeadingZeros(ds) == z + LeadingZeros(ds[z..])
      invariant r == Zeros(z) + digits
    {
      assert ds[z..][1..] == ds[z + 1..];
      assert Zeros(z + 1) == [0] + Zeros(z);
      r := [0] + r;
      z := z + 1;
    }
  }

  // ---- sizes ---------------------------------------------------------------------

  lemma MulAssoc(a: nat, b: nat, c: nat)
    ensures a * (b * c) == a * b * c
  {
  }

  lemma {:induction false} PowAdd(b: nat, m: nat, n: nat)
    ensures Pow(b, m + n) == Pow(b, m) * Pow(b, n)
  {
    if m > 0 {
      PowAdd(b, m - 1, n);
      MulAssoc(b, Pow(b, m - 1), Pow(b, n));
    }
  }

  lemma {:induction false} PowPositive(b: nat, n: nat)
    requires b > 0
    ensures Pow(b, n) > 0
  {
    if n > 0 {
      PowPositive(b, n - 1);
    }
  }

  lemma {:induction false} ValueBound(ds: seq<nat>, base: nat)
    requires base >= 2 && Below(ds, base)
    ensures Value(ds, base) < Pow(base, |ds|)
  {
    if ds != [] {
      var init, last := ds[..|ds| - 1], ds[|ds| - 1];
      ValueBound(init, base);
      MulMonotone(Value(init, base) + 1, Pow(base, |init|), base, base);
      assert (Value(init, base) + 1) * base == Value(init, base) * base + base;
    }
  }

  lemma ShiftDigit(q: nat, r: nat, d: nat, base: nat, p: nat)
    ensures q * (base * p) + (r * base + d) == (q * p + r) * base + d
  {
    assert q * (base * p) == q * p * base;
    assert (q * p + r) * base == q * p * base + r * base;
  }

  lemma {:induction false} ValueSplit(a: seq<nat>, b: seq<nat>, base: nat)
    ensures Value(a + b, base) == Value(a, base) * Pow(base, |b|) + Value(b, base)
  {
    if b == [] {
      assert a + b == a;
    } else {
      var init, last := b[..|b| - 1], b[|b| - 1];
      assert (a + b)[..|a + b| - 1] == a + init;
      ValueSplit(a, init, base);
      ShiftDigit(Value(a, base), Value(init, base), last, base, Pow(base, |init|));
    }
  }

  lemma QuotientBelow(q: nat, r: nat, base: nat, p: nat)
    requires q * base + r < base * p
    ensures q < p
  {
    assert q >= p ==> q * base >= p * base;
  }

  /** A number below base^k has at most k digits. */
  lemma {:induction false} DigitCount(n: nat, base: nat, k: nat)
    requires base >= 2 && n < Pow(base, k)
    ensures |DigitsOf(n, base)| <= k
  {
    if n > 0 {
      var q, r := Split(n, base);
      QuotientBelow(q, r, base, Pow(base, k - 1));
      DigitCount(q, base, k - 1);
    }
  }

  /** The digits of `n` start with the digits of its quotient by base^k, followed by k more. */
  lemma {:induction false} TopDigits(q: nat, r: nat, base: nat, k: nat)
    requires base >= 2 && q > 0 && r < Pow(base, k)
    ensures |DigitsOf(q * Pow(base, k) + r, base)| == |DigitsOf(q, base)| + k
    ensures DigitsOf(q, base) <= DigitsOf(q * Pow(base, k) + r, base)
    decreases k
  {
    if k == 0 {
      assert q * Pow(base, 0) + r == q;
    } else {
      var p := Pow(base, k - 1);
      var r', d := DivRem(r, base);
      QuotientBelow(r', d, base, p);
      TopDigits(q, r', base, k - 1);
      ShiftDigit(q, r', d, base, p);
      PowPositive(base, k - 1);
      MulMonotone(1, q, 1, p);
      Append(q * p + r', d, base);
    }
  }

  lemma DivRem(r: nat, base: nat) returns (q: nat, d: nat)
    requires base > 0
    ensures r == q * base + d && d < base
  {
    q, d := r / base, r % base;
    DivUnique(r, base, q, d);
  }
}
