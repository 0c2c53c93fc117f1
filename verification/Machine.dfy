/** Rust's fixed-width integers as bounded naturals, with the saturating and
    wrapping operations the selection code spells out. */
module Machine {

  const U8_MAX: nat := 0xFF
  const U32_MAX: nat := 0xFFFF_FFFF
  const U64_MAX: nat := 0xFFFF_FFFF_FFFF_FFFF
  const U128_MAX: nat := 0xFFFF_FFFF_FFFF_FFFF_FFFF_FFFF_FFFF_FFFF

  type byte = n: nat | n <= U8_MAX
  type u32 = n: nat | n <= U32_MAX
  type u64 = n: nat | n <= U64_MAX
  type u128 = n: nat | n <= U128_MAX

  /** A 16-byte node identifier: a relay id or an exit id. */
  type Id = s: seq<byte> | |s| == 16 witness seq(16, _ => 0)

  /** A 32-byte public key. */
  type Key32 = s: seq<byte> | |s| == 32 witness seq(32, _ => 0)

  function AtLeastOne(n: nat): nat {
    if n == 0 then 1 else n
  }

  function SaturateU64(n: nat): u64 {
    if n <= U64_MAX then n else U64_MAX
  }

  function SaturateU128(n: nat): u128 {
    if n <= U128_MAX then n else U128_MAX
  }

  function SaturatingSub(a: nat, b: nat): nat {
    if a < b then 0 else a - b
  }

  // Division facts the solver does not find reliably on its own.

  lemma {:induction false} DivMonotone(a: nat, b: nat, d: nat)
    requires a <= b && 0 < d
    ensures a / d <= b / d
  {
    var q, r := a / d, b / d;
    assert r < q ==> d * (r + 1) <= d * q;
  }

  lemma {:induction false} DivUnique(a: nat, d: nat, q: nat, r: nat)
    requires a == q * d + r && r < d
    ensures a / d == q && a % d == r
  {
    var q', r' := a / d, a % d;
    assert a == q' * d + r';
    assert q < q' ==> (q + 1) * d <= q' * d;
    assert q' < q ==> (q' + 1) * d <= q * d;
  }

  /** Adding a whole divisor moves the quotient by one. */
  lemma {:induction false} DivStep(a: nat, d: nat)
    requires 0 < d
    ensures (a + d) / d == a / d + 1
  {
    var q, r := a / d, a % d;
    assert a + d == (q + 1) * d + r;
    DivUnique(a + d, d, q + 1, r);
  }

  lemma MulMonotone(a: nat, b: nat, c: nat, d: nat)
    requires a <= b && c <= d
    ensures a * c <= b * d
  {
    assert a * c <= b * c;
    assert b * c <= b * d;
  }
}
