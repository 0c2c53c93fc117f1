/** Printed decimal numbers, and what reading them back gives. */
module Decimals {
  import opened Machine
  import opened Digits

  /** The digits `to_string` prints: a lone 0 for zero. */
  function PrintedDigits(n: nat): (r: seq<nat>)
    ensures r != [] && Below(r, 10)
  {
    DigitsBelow(n, 10);
    if n == 0 then [0]
    else
      FirstDigit(n, 10);
      DigitsOf(n, 10)
  }

  function DigitChars(ds: seq<nat>): (s: string)
    requires Below(ds, 10)
    ensures |s| == |ds| && forall i :: 0 <= i < |ds| ==> s[i] as int == '0' as int + ds[i]
  {
    if ds == [] then "" else [('0' as int + ds[0]) as char] + DigitChars(ds[1..])
  }

  function Decimal(n: nat): string {
    DigitChars(PrintedDigits(n))
  }

  lemma DecimalClean(n: nat, c: char)
    requires c in Decimal(n)
    ensures '0' <= c <= '9'
  {
    var i :| 0 <= i < |Decimal(n)| && Decimal(n)[i] == c;
    assert PrintedDigits(n)[i] < 10;
  }

  lemma DecimalInjective(m: nat, n: nat)
    requires Decimal(m) == Decimal(n)
    ensures m == n
  {
    var (a, b) := (PrintedDigits(m), PrintedDigits(n));
    assert |a| == |b|;
    forall i | 0 <= i < |a| ensures a[i] == b[i] {
      assert Decimal(m)[i] as int == '0' as int + a[i] && Decimal(n)[i] as int == '0' as int + b[i];
    }
    assert a == b;
    PrintedValue(m);
    PrintedValue(n);
  }

  lemma PrintedValue(n: nat)
    ensures Value(PrintedDigits(n), 10) == n
  {
    ValueOfDigits(n, 10);
    if n == 0 {
      assert PrintedDigits(n)[..0] == [];
    }
  }

  /** Reading digits from the left: ten times what came before, plus the digit. */
  function Read(s: string): nat
    requires forall i :: 0 <= i < |s| ==> '0' <= s[i] <= '9'
  {
    if s == "" then 0
    else
      var init, last := s[..|s| - 1], s[|s| - 1];
      assert forall i :: 0 <= i < |init| ==> init[i] == s[i];
      10 * Read(init) + (last as int - '0' as int)
  }

  lemma {:induction false} ReadIsValue(s: string, ds: seq<nat>)
    requires |s| == |ds| && forall i :: 0 <= i < |s| ==> ds[i] < 10 && s[i] as int == '0' as int + ds[i]
    ensures Read(s) == Value(ds, 10)
  {
    if s != "" {
      ReadIsValue(s[..|s| - 1], ds[..|ds| - 1]);
    }
  }

  /** A printed number reads back as itself, from digits only, without a leading zero. */
  lemma DecimalReads(n: nat)
    ensures Decimal(n) != "" && forall i :: 0 <= i < |Decimal(n)| ==> '0' <= Decimal(n)[i] <= '9'
    ensures Read(Decimal(n)) == n
    ensures Decimal(n)[0] == '0' ==> n == 0 && |Decimal(n)| == 1
  {
    var ds := PrintedDigits(n);
    forall i | 0 <= i < |ds| ensures ds[i] < 10 && Decimal(n)[i] as int == '0' as int + ds[i] {
    }
    ReadIsValue(Decimal(n), ds);
    PrintedValue(n);
    if n > 0 {
      FirstDigit(n, 10);
    }
  }
}
