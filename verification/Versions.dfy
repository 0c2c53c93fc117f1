/** Client-version targeting: parsing dotted versions, comparing them, and the bounds an
    announcement may declare. */
module Versions {
  import opened Wrappers
  import opened Machine
  import opened Text
  import opened Decimals
  import opened Digits
  import opened Order

  // ---- text ---------------------------------------------------------------------------

  /** Unicode White_Space. */
  predicate IsWhitespace(c: char) {
    var n := c as int;
    || 0x9 <= n <= 0xD || n == 0x20 || n == 0x85 || n == 0xA0 || n == 0x1680
    || 0x2000 <= n <= 0x200A || n == 0x2028 || n == 0x2029 || n == 0x202F || n == 0x205F || n == 0x3000
  }

  /** The 25 code points of White_Space. */
  lemma WhitespaceMeans(c: char)
    ensures IsWhitespace(c) <==>
            c as int in {9, 10, 11, 12, 13, 32, 133, 160, 5760, 8192, 8193, 8194, 8195, 8196, 8197, 8198, 8199, 8200,
                         8201, 8202, 8232, 8233, 8239, 8287, 12288}
  {
  }

  function TrimStart(s: string, drop: char -> bool): string {
    if s != "" && drop(s[0]) then TrimStart(s[1..], drop) else s
  }

  function TrimEnd(s: string, drop: char -> bool): string {
    if s != "" && drop(s[|s| - 1]) then TrimEnd(s[..|s| - 1], drop) else s
  }

  function Trimmed(v: string): string {
    TrimStart(TrimEnd(TrimStart(v, IsWhitespace), IsWhitespace), c => c == 'v' || c == 'V')
  }

  predicate IsDigit(c: char) {
    '0' <= c <= '9'
  }

  /** The leading digits of a piece. */
  function LeadingDigits(part: string): (r: string)
    ensures |r| <= |part| && r == part[..|r|] && forall c :: c in r ==> IsDigit(c)
  {
    if part != "" && IsDigit(part[0]) then [part[0]] + LeadingDigits(part[1..]) else ""
  }

  function DigitValues(s: string): (r: seq<nat>)
    requires forall c :: c in s ==> IsDigit(c)
    ensures |r| == |s|
  {
    if s == "" then []
    else
      assert IsDigit(s[0]) && forall c :: c in s[1..] ==> c in s;
      [s[0] as int - '0' as int] + DigitValues(s[1..])
  }

  /** `parse::<u64>` on a run of digits: a value that does not fit is an error. */
  function ParseU64(digits: string): Option<u64>
    requires forall c :: c in digits ==> IsDigit(c)
  {
    var n := Value(DigitValues(digits), 10);
    if n <= U64_MAX then Some(n) else None
  }

  // ---- components ------------------------------------------------------------------------

  /** The components from a list of pieces: up to the first piece without a leading digit,
      or through the first piece with a suffix; nothing at all if one overflows. */
  function ComponentsFrom(parts: seq<string>): Option<seq<u64>> {
    if parts == [] then Some([])
    else
      var digits := LeadingDigits(parts[0]);
      if digits == "" then Some([])
      else
        match ParseU64(digits)
        case None => None
        case Some(n) =>
          if |digits| != |parts[0]| then Some([n])
          else
            match ComponentsFrom(parts[1..])
            case None => None
            case Some(rest) => Some([n] + rest)
  }

  function Components(v: string): Option<seq<u64>> {
    match ComponentsFrom(SplitOn(Trimmed(v), '.'))
    case None => None
    case Some(out) => if out == [] then None else Some(out)
  }

  method NumericComponents(v: string) returns (r: Option<seq<u64>>)
    ensures r == Components(v)
  {
    var parts := SplitOn(Trimmed(v), '.');
    var out: seq<u64> := [];
    ghost var goal := ComponentsFrom(parts);
    var i := 0;
    assert parts[0..] == parts;
    PrependNothing(goal);
    while i < |parts|
      invariant 0 <= i <= |parts|
      invariant goal == Prepend(out, ComponentsFrom(parts[i..]))
    {
      var digits := LeadingDigits(parts[i]);
      if digits == "" {
        PrependStep(out, 0, None);
        break;
      }
      var n := ParseU64(digits);
      if n.None? {
        return None;
      }
      assert parts[i..][1..] == parts[i + 1..];
      PrependStep(out, n.value, ComponentsFrom(parts[i + 1..]));
      out := out + [n.value];
      if |digits| != |parts[i]| {
        assert goal == Some(out);
        break;
      }
      i := i + 1;
    }
    PrependStep(out, 0, None);
    assert goal == Some(out);
    r := if out == [] then None else Some(out);
  }

  ghost function Prepend(out: seq<u64>, rest: Option<seq<u64>>): Option<seq<u64>> {
    match rest case None => None case Some(s) => Some(out + s)
  }

  lemma PrependNothing(rest: Option<seq<u64>>)
    ensures Prepend([], rest) == rest
  {
    if rest.Some? {
      assert [] + rest.value == rest.value;
    }
  }

  lemma PrependStep(out: seq<u64>, n: u64, rest: Option<seq<u64>>)
    ensures rest.Some? ==> Prepend(out, Some([n] + rest.value)) == Prepend(out + [n], rest)
    ensures Prepend(out, Some([n])) == Some(out + [n])
    ensures Prepend(out, Some([])) == Some(out)
  {
    if rest.Some? {
      assert out + ([n] + rest.value) == out + [n] + rest.value;
    }
    assert out + [] == out;
  }

  // ---- what the components are -------------------------------------------------------------

  /** Numbers printed with dots between them. */
  function Dotted(ns: seq<u64>): string
    requires ns != []
  {
    if |ns| == 1 then Decimal(ns[0]) else Decimal(ns[0]) + ['.'] + Dotted(ns[1..])
  }

  /** What may follow the last number: nothing, or text that neither starts with a digit or
      a dot nor ends in white space. */
  predicate Suffix(s: string) {
    s == "" || (!IsDigit(s[0]) && s[0] != '.' && !IsWhitespace(s[|s| - 1]))
  }

  lemma DecimalIsDigits(n: u64)
    ensures Decimal(n) != "" && '.' !in Decimal(n) && forall c :: c in Decimal(n) ==> IsDigit(c)
  {
    forall c | c in Decimal(n) ensures IsDigit(c) {
      DecimalClean(n, c);
    }
  }

  lemma {:induction false} DigitsLead(digits: string, rest: string)
    requires (forall c :: c in digits ==> IsDigit(c)) && (rest == "" || !IsDigit(rest[0]))
    ensures LeadingDigits(digits + rest) == digits
  {
    if digits == "" {
      assert digits + rest == rest;
    } else {
      assert IsDigit(digits[0]) && forall c :: c in digits[1..] ==> c in digits;
      assert (digits + rest)[1..] == digits[1..] + rest;
      DigitsLead(digits[1..], rest);
    }
  }

  lemma {:induction false} ValuesOfDecimal(n: u64)
    requires forall c :: c in Decimal(n) ==> IsDigit(c)
    ensures ParseU64(Decimal(n)) == Some(n)
  {
    ValuesOfChars(PrintedDigits(n));
    PrintedValue(n);
  }

  lemma {:induction false} ValuesOfChars(ds: seq<nat>)
    requires Below(ds, 10)
    ensures forall c :: c in DigitChars(ds) ==> IsDigit(c)
    ensures DigitValues(DigitChars(ds)) == ds
  {
    var s := DigitChars(ds);
    forall c | c in s ensures IsDigit(c) {
      var i :| 0 <= i < |s| && s[i] == c;
      assert ds[i] < 10;
    }
    if ds != [] {
      assert s[1..] == DigitChars(ds[1..]);
      ValuesOfChars(ds[1..]);
      assert ds == [ds[0]] + ds[1..];
    }
  }

  /** The pieces of dotted numbers and a suffix give the numbers back. */
  lemma {:induction false} DottedPieces(ns: seq<u64>, suffix: string)
    requires ns != [] && Suffix(suffix)
    ensures ComponentsFrom(SplitOn(Dotted(ns) + suffix, '.')) == Some(ns)
  {
    var n, rest := ns[0], ns[1..];
    assert ns == [n] + rest;
    if rest == [] {
      LastPiece(n, suffix);
      assert ns == [n] && Dotted(ns) == Decimal(n);
    } else {
      var head, tail := Decimal(n) + ['.'], Dotted(rest);
      assert Dotted(ns) == head + tail;
      DottedCons(head, tail, suffix);
      DottedPieces(rest, suffix);
      OneMorePiece(n, tail + suffix, rest);
    }
  }

  lemma DottedCons(head: string, tail: string, suffix: string)
    ensures head + tail + suffix == head + (tail + suffix)
  {
  }

  lemma {:induction false} OneMorePiece(n: u64, rest: string, ns: seq<u64>)
    requires ComponentsFrom(SplitOn(rest, '.')) == Some(ns)
    ensures ComponentsFrom(SplitOn(Decimal(n) + ['.'] + rest, '.')) == Some([n] + ns)
  {
    DecimalIsDigits(n);
    ValuesOfDecimal(n);
    SplitHead(Decimal(n), '.', rest);
    DigitsLead(Decimal(n), "");
    assert Decimal(n) + "" == Decimal(n);
    var parts := SplitOn(Decimal(n) + ['.'] + rest, '.');
    assert parts[0] == Decimal(n) && parts[1..] == SplitOn(rest, '.');
  }

  lemma {:induction false} LastPiece(n: u64, suffix: string)
    requires Suffix(suffix)
    ensures ComponentsFrom(SplitOn(Decimal(n) + suffix, '.')) == Some([n])
  {
    DecimalIsDigits(n);
    ValuesOfDecimal(n);
    SplitPiece(Decimal(n), '.', suffix);
    var parts, tail := SplitOn(Decimal(n) + suffix, '.'), SplitOn(suffix, '.')[0];
    assert parts[0] == Decimal(n) + tail;
    DigitsLead(Decimal(n), tail);
    if suffix == "" {
      assert SplitOn(suffix, '.') == [""] && parts[1..] == [];
      assert tail == "" && parts[0] == Decimal(n);
      assert [n] + [] == [n];
    } else {
      assert tail != "" && tail[0] == suffix[0];
    }
  }

  lemma {:induction false} TrimStartOf(lead: string, rest: string, drop: char -> bool)
    requires (forall c :: c in lead ==> drop(c)) && (rest == "" || !drop(rest[0]))
    ensures TrimStart(lead + rest, drop) == rest
  {
    if lead == "" {
      assert lead + rest == rest;
    } else {
      assert drop(lead[0]) && forall c :: c in lead[1..] ==> c in lead;
      assert (lead + rest)[1..] == lead[1..] + rest;
      TrimStartOf(lead[1..], rest, drop);
    }
  }

  lemma {:induction false} TrimEndOf(rest: string, trail: string, drop: char -> bool)
    requires (forall c :: c in trail ==> drop(c)) && (rest == "" || !drop(rest[|rest| - 1]))
    ensures TrimEnd(rest + trail, drop) == rest
  {
    if trail == "" {
      assert rest + trail == rest;
    } else {
      var init := trail[..|trail| - 1];
      assert drop(trail[|trail| - 1]) && forall c :: c in init ==> c in trail;
      assert (rest + trail)[..|rest + trail| - 1] == rest + init;
      TrimEndOf(rest, init, drop);
    }
  }

  /** White space around and any run of `v` or `V` before a text that starts with a digit and
      does not end in white space are dropped, and nothing else. */
  lemma {:induction false} TrimmedOf(lead: string, vs: string, text: string, trail: string)
    requires (forall c :: c in lead ==> IsWhitespace(c)) && (forall c :: c in trail ==> IsWhitespace(c))
    requires forall c :: c in vs ==> c == 'v' || c == 'V'
    requires text != "" && IsDigit(text[0]) && !IsWhitespace(text[|text| - 1])
    ensures Trimmed(lead + vs + text + trail) == text
  {
    var inner := vs + text;
    assert lead + vs + text + trail == lead + (inner + trail);
    assert vs != "" ==> vs[0] in vs;
    assert !IsWhitespace(inner[0]) && (inner + trail)[0] == inner[0];
    TrimStartOf(lead, inner + trail, IsWhitespace);
    TrimEndOf(inner, trail, IsWhitespace);
    TrimStartOf(vs, text, c => c == 'v' || c == 'V');
    assert Trimmed(lead + vs + text + trail) == TrimStart(inner, c => c == 'v' || c == 'V');
  }

  lemma {:induction false} DottedEnds(ns: seq<u64>)
    requires ns != []
    ensures Dotted(ns) != "" && IsDigit(Dotted(ns)[0]) && IsDigit(Dotted(ns)[|Dotted(ns)| - 1])
  {
    DecimalIsDigits(ns[0]);
    assert Decimal(ns[0])[0] in Decimal(ns[0]) && Decimal(ns[0])[|Decimal(ns[0])| - 1] in Decimal(ns[0]);
    if |ns| > 1 {
      DottedEnds(ns[1..]);
    }
  }

  /** The components of dotted numbers are those numbers in that order, whatever white space,
      `v` and suffix surround them. */
  lemma {:induction false} ComponentsMeans(lead: string, vs: string, ns: seq<u64>, suffix: string, trail: string)
    requires (forall c :: c in lead ==> IsWhitespace(c)) && (forall c :: c in trail ==> IsWhitespace(c))
    requires (forall c :: c in vs ==> c == 'v' || c == 'V') && ns != [] && Suffix(suffix)
    ensures Components(lead + vs + (Dotted(ns) + suffix) + trail) == Some(ns)
  {
    DottedEnds(ns);
    TrimmedOf(lead, vs, Dotted(ns) + suffix, trail);
    DottedPieces(ns, suffix);
  }

  // ---- comparison --------------------------------------------------------------------------

  function At(s: seq<u64>, i: nat): u64 {
    if i < |s| then s[i] else 0
  }

  /** `s` filled up with zeros to `n` components. */
  function Padded(s: seq<u64>, n: nat): seq<u64>
    requires |s| <= n
  {
    s + seq(n - |s|, _ => 0)
  }

  /** The reference: compare the zero-padded sequences lexicographically. */
  function CmpPadded(a: seq<u64>, b: seq<u64>): Ordering {
    var n := if |a| < |b| then |b| else |a|;
    CmpLex(CmpU64, Padded(a, n), Padded(b, n))
  }

  function CmpVersion(a: string, b: string): Option<Ordering> {
    match (Components(a), Components(b))
    case (Some(l), Some(r)) => Some(CmpPadded(l, r))
    case _ => None
  }

  method CompareVersions(a: string, b: string) returns (r: Option<Ordering>)
    ensures r == CmpVersion(a, b)
  {
    var left := NumericComponents(a);
    if left.None? {
      return None;
    }
    var right := NumericComponents(b);
    if right.None? {
      return None;
    }
    var len := if |left.value| < |right.value| then |right.value| else |left.value|;
    ghost var p, q := Padded(left.value, len), Padded(right.value, len);
    assert p[0..] == p && q[0..] == q;
    for i := 0 to len
      invariant CmpLex(CmpU64, p, q) == CmpLex(CmpU64, p[i..], q[i..])
    {
      var l := At(left.value, i);
      var r' := At(right.value, i);
      assert p[i..][1..] == p[i + 1..] && q[i..][1..] == q[i + 1..];
      assert l == p[i] && r' == q[i];
      match CmpNat(l, r') {
        case Equal =>
        case other => return Some(other);
      }
    }
    r := Some(Equal);
  }

  /** Padding further changes nothing. */
  lemma PaddingNeutral(a: seq<u64>, b: seq<u64>, n: nat)
    requires |a| <= n && |b| <= n
    ensures CmpPadded(a, b) == CmpLex(CmpU64, Padded(a, n), Padded(b, n))
  {
    var m := if |a| < |b| then |b| else |a|;
    var z := seq(n - m, _ => 0);
    assert Padded(a, n) == Padded(a, m) + z && Padded(b, n) == Padded(b, m) + z;
    CommonTail(Padded(a, m), Padded(b, m), z);
  }

  lemma {:induction false} CommonTail(a: seq<u64>, b: seq<u64>, z: seq<u64>)
    requires |a| == |b|
    ensures CmpLex(CmpU64, a + z, b + z) == CmpLex(CmpU64, a, b)
  {
    if a == [] {
      assert a + z == z && b + z == z;
      LexAntisymmetric(CmpU64, z, z);
    } else {
      assert (a + z)[1..] == a[1..] + z && (b + z)[1..] == b[1..] + z;
      CommonTail(a[1..], b[1..], z);
    }
  }

  /** On parseable versions the comparison is a total preorder: reflexive, flipped under a
      swap, and transitive whatever the three lengths. */
  lemma VersionPreorder(a: string, b: string, c: string)
    requires Components(a).Some? && Components(b).Some? && Components(c).Some?
    ensures CmpVersion(a, a) == Some(Equal)
    ensures CmpVersion(a, b).Some? && CmpVersion(b, a) == Some(CmpVersion(a, b).value.Flip())
    ensures CmpVersion(b, c).Some? && CmpVersion(a, c).Some?
    ensures CmpVersion(a, b).value != Greater && CmpVersion(b, c).value != Greater ==> CmpVersion(a, c).value != Greater
  {
    var (x, y, z) := (Components(a).value, Components(b).value, Components(c).value);
    var n := |x| + |y| + |z|;
    PaddingNeutral(x, x, n);
    PaddingNeutral(x, y, n);
    PaddingNeutral(y, x, n);
    PaddingNeutral(y, z, n);
    PaddingNeutral(x, z, n);
    LexAntisymmetric(CmpU64, Padded(x, n), Padded(x, n));
    LexAntisymmetric(CmpU64, Padded(x, n), Padded(y, n));
    if CmpVersion(a, b).value != Greater && CmpVersion(b, c).value != Greater {
      LexTransitive(CmpU64, Padded(x, n), Padded(y, n), Padded(z, n));
    }
  }

  /** Trailing zero components do not matter: versions compare equal exactly when they agree
      at every index, reading 0 past the end. */
  lemma EqualIff(a: string, b: string)
    requires Components(a).Some? && Components(b).Some?
    ensures CmpVersion(a, b) == Some(Equal) <==>
            forall i: nat :: At(Components(a).value, i) == At(Components(b).value, i)
  {
    var (x, y) := (Components(a).value, Components(b).value);
    var n := if |x| < |y| then |y| else |x|;
    var (p, q) := (Padded(x, n), Padded(y, n));
    LexAntisymmetric(CmpU64, p, q);
    assert forall i: nat :: i < n ==> p[i] == At(x, i) && q[i] == At(y, i);
    if p == q {
      assert forall i: nat :: i < n ==> p[i] == q[i];
    }
  }

  /** `x` is below `y` at component `i`, the first at which they differ, reading 0 past the
      end. */
  ghost predicate LowerAt(x: seq<u64>, y: seq<u64>, i: nat) {
    && (if i < |x| then x[i] else 0) < (if i < |y| then y[i] else 0)
    && forall j :: 0 <= j < i ==> (if j < |x| then x[j] else 0) == (if j < |y| then y[j] else 0)
  }

  lemma {:induction false} LessMeans(x: seq<u64>, y: seq<u64>)
    ensures CmpPadded(x, y) == Less <==> exists i: nat :: LowerAt(x, y, i)
    ensures CmpPadded(x, y) == Greater <==> CmpPadded(y, x) == Less
  {
    var n := if |x| < |y| then |y| else |x|;
    var (p, q) := (Padded(x, n), Padded(y, n));
    LexAntisymmetric(CmpU64, p, q);
    LexLessIff(CmpU64, p, q);
    forall i: nat ensures SmallerAt(CmpU64, p, q, i) <==> LowerAt(x, y, i) {
      PaddedAt(x, y, n, i);
    }
  }

  lemma PaddedAt(x: seq<u64>, y: seq<u64>, n: nat, i: nat)
    requires |x| <= n && |y| <= n
    ensures SmallerAt(CmpU64, Padded(x, n), Padded(y, n), i) <==> LowerAt(x, y, i)
  {
    var (p, q) := (Padded(x, n), Padded(y, n));
    if SmallerAt(CmpU64, p, q, i) {
      forall j | 0 <= j < i ensures p[j] == q[j] {
        assert p[..i][j] == q[..i][j];
      }
    }
    assert forall j :: 0 <= j < n ==>
      p[j] == (if j < |x| then x[j] else 0) && q[j] == (if j < |y| then y[j] else 0);
    if LowerAt(x, y, i) {
      assert i < |y| && p[i] < q[i];
      assert forall j :: 0 <= j < i ==> p[j] == q[j];
      assert p[..i] == q[..i];
    }
  }

  /** Versions compare as numbers, component by component: one is below the other exactly at
      the first component that differs. */
  lemma CompareMeans(a: string, b: string)
    requires Components(a).Some? && Components(b).Some?
    ensures CmpVersion(a, b) == Some(Less) <==> exists i: nat :: LowerAt(Components(a).value, Components(b).value, i)
    ensures CmpVersion(a, b) == Some(Greater) <==> exists i: nat :: LowerAt(Components(b).value, Components(a).value, i)
  {
    LessMeans(Components(a).value, Components(b).value);
    LessMeans(Components(b).value, Components(a).value);
  }

  // ---- bounds ----------------------------------------------------------------------------------

  predicate AtLeast(client: string, min: string) {
    var o := CmpVersion(client, min);
    o.Some? && o.value != Less
  }

  predicate AtMost(client: string, max: string) {
    var o := CmpVersion(client, max);
    o.Some? && o.value != Greater
  }

  method InBounds(client: Option<string>, min: Option<string>, max: Option<string>) returns (r: bool)
    ensures r <==> Targeted(client, min, max)
  {
    if min.None? && max.None? {
      return true;
    }
    if client.None? {
      return false;
    }
    if min.Some? {
      var o := CompareVersions(client.value, min.value);
      if o.None? || o.value == Less {
        return false;
      }
    }
    if max.Some? {
      var o := CompareVersions(client.value, max.value);
      if o.None? || o.value == Greater {
        return false;
      }
    }
    return true;
  }

  predicate Targeted(client: Option<string>, min: Option<string>, max: Option<string>) {
    || (min.None? && max.None?)
    || (client.Some? && (min.Some? ==> AtLeast(client.value, min.value)) &&
        (max.Some? ==> AtMost(client.value, max.value)))
  }

  /** A declared range withholds a client whose version is absent or does not parse. */
  lemma RangeWithholdsUnknown(client: Option<string>, min: Option<string>, max: Option<string>)
    requires min.Some? || max.Some?
    requires client.None? || Components(client.value).None?
    ensures !Targeted(client, min, max)
  {
  }

  /** Targeting on the components: no bound at all, or a parseable client and parseable bounds
      with the client not below the lower nor above the upper, both inclusive. */
  lemma TargetedMeans(client: Option<string>, min: Option<string>, max: Option<string>)
    ensures Targeted(client, min, max) <==>
            || (min == None && max == None)
            || (&& client.Some? && Components(client.value).Some?
                && (min.Some? ==>
                      Components(min.value).Some? &&
                      forall i: nat :: !LowerAt(Components(client.value).value, Components(min.value).value, i))
                && (max.Some? ==>
                      Components(max.value).Some? &&
                      forall i: nat :: !LowerAt(Components(max.value).value, Components(client.value).value, i)))
  {
    if client.Some? && Components(client.value).Some? {
      if min.Some? && Components(min.value).Some? {
        CompareMeans(client.value, min.value);
      }
      if max.Some? && Components(max.value).Some? {
        CompareMeans(client.value, max.value);
      }
    }
  }

  /** A version does not parse exactly when it has no leading numeric component, or some
      component behind purely numeric ones overflows u64. */
  lemma UnparseableIff(v: string)
    ensures var parts := SplitOn(Trimmed(v), '.');
            Components(v).None? <==>
            LeadingDigits(parts[0]) == "" || exists i: nat :: i < |parts| && Overflows(parts, i)
  {
    OverflowIff(SplitOn(Trimmed(v), '.'));
  }

  predicate Overflows(parts: seq<string>, i: nat)
    requires i < |parts|
  {
    && Value(DigitValues(LeadingDigits(parts[i])), 10) > U64_MAX
    && forall m :: 0 <= m < i ==> parts[m] != "" && LeadingDigits(parts[m]) == parts[m]
  }

  lemma {:induction false} OverflowIff(parts: seq<string>)
    ensures ComponentsFrom(parts).None? <==> exists i: nat :: i < |parts| && Overflows(parts, i)
  {
    if parts != [] {
      OverflowIff(parts[1..]);
      if ComponentsFrom(parts).None? {
        var i := OverflowFound(parts);
      }
      forall i: nat | i < |parts| && Overflows(parts, i) ensures ComponentsFrom(parts).None? {
        if i > 0 {
          assert Overflows(parts[1..], i - 1);
        }
      }
    }
  }

  lemma OverflowFound(parts: seq<string>) returns (i: nat)
    requires parts != [] && ComponentsFrom(parts).None?
    requires ComponentsFrom(parts[1..]).None? ==> exists m: nat :: m < |parts| - 1 && Overflows(parts[1..], m)
    ensures i < |parts| && Overflows(parts, i)
  {
    var digits := LeadingDigits(parts[0]);
    if ParseU64(digits).None? {
      i := 0;
    } else {
      var m: nat :| m < |parts| - 1 && Overflows(parts[1..], m);
      assert digits == parts[0];
      i := m + 1;
    }
  }

  /** The targeted versions are convex: between two of them, every version is targeted. */
  lemma TargetedConvex(a: string, b: string, c: string, min: Option<string>, max: Option<string>)
    requires Targeted(Some(a), min, max) && Targeted(Some(c), min, max)
    requires AtMost(a, b) && AtMost(b, c)
    ensures Targeted(Some(b), min, max)
  {
    if min.Some? {
      VersionPreorder(min.value, a, b);
      VersionPreorder(min.value, b, a);
    }
    if max.Some? {
      VersionPreorder(b, c, max.value);
    }
  }
}
