/** ASCII case folding and hex: how identifiers and country codes are matched. And where a
    text with separators can be cut. */
module Text {
  import opened Wrappers
  import opened Machine

  function LowerChar(c: char): char {
    if 'A' <= c <= 'Z' then (c as int - 'A' as int + 'a' as int) as char else c
  }

  /** Folding moves the 26 ASCII capitals onto their small letters and nothing else. */
  lemma LowerCharMeans(c: char)
    ensures LowerChar(c) as int == if 65 <= c as int <= 90 then c as int + 32 else c as int
  {
  }

  predicate EqIgnoreCase(a: string, b: string) {
    |a| == |b| && forall i :: 0 <= i < |a| ==> LowerChar(a[i]) == LowerChar(b[i])
  }

  const HEX_DIGITS: string := "0123456789abcdef"

  function HexEncode(b: seq<byte>): (s: string)
    ensures |s| == 2 * |b|
  {
    if b == [] then ""
    else [HEX_DIGITS[b[0] / 16], HEX_DIGITS[b[0] % 16]] + HexEncode(b[1..])
  }

  /** The printed text of bytes: two digits each, the high one first, in small letters. */
  lemma {:induction false} HexMeans(b: seq<byte>, i: nat)
    requires i < |b|
    ensures var (hi, lo) := (HexEncode(b)[2 * i], HexEncode(b)[2 * i + 1]);
            && (('0' <= hi <= '9' && b[i] / 16 == hi as int - 48) || ('a' <= hi <= 'f' && b[i] / 16 == hi as int - 87))
            && (('0' <= lo <= '9' && b[i] % 16 == lo as int - 48) || ('a' <= lo <= 'f' && b[i] % 16 == lo as int - 87))
  {
    if i > 0 {
      HexMeans(b[1..], i - 1);
      assert HexEncode(b)[2..] == HexEncode(b[1..]);
      assert HexEncode(b)[2 * i] == HexEncode(b)[2..][2 * (i - 1)];
      assert HexEncode(b)[2 * i + 1] == HexEncode(b)[2..][2 * (i - 1) + 1];
    }
  }

  function HexValue(c: char): (r: Option<nat>)
    ensures r.Some? ==> r.value < 16
  {
    if '0' <= c <= '9' then Some(c as int - '0' as int)
    else if 'a' <= c <= 'f' then Some(c as int - 'a' as int + 10)
    else if 'A' <= c <= 'F' then Some(c as int - 'A' as int + 10)
    else None
  }

  function HexDecode(s: string): (r: Option<seq<byte>>)
    ensures r.Some? ==> |s| == 2 * |r.value|
  {
    if s == "" then Some([])
    else if |s| == 1 then None
    else
      match (HexValue(s[0]), HexValue(s[1]), HexDecode(s[2..]))
      case (Some(hi), Some(lo), Some(rest)) => Some([16 * hi + lo] + rest)
      case _ => None
  }

  lemma HexDigitMatches(c: char, d: nat)
    requires d < 16
    ensures LowerChar(c) == LowerChar(HEX_DIGITS[d]) <==> HexValue(c) == Some(d)
  {
  }

  lemma FoldSplit(a: string, b: string)
    requires |a| >= 2 && |b| >= 2
    ensures EqIgnoreCase(a, b) <==>
            EqIgnoreCase(a[..2], b[..2]) && EqIgnoreCase(a[2..], b[2..])
  {
    if EqIgnoreCase(a[..2], b[..2]) && EqIgnoreCase(a[2..], b[2..]) {
      forall i | 0 <= i < |a| ensures LowerChar(a[i]) == LowerChar(b[i]) {
        if i < 2 {
          assert a[i] == a[..2][i] && b[i] == b[..2][i];
        } else {
          assert a[i] == a[2..][i - 2] && b[i] == b[2..][i - 2];
        }
      }
    }
  }

  lemma DecodeSplit(s: string, id: seq<byte>)
    requires |s| >= 2 && id != []
    ensures HexDecode(s) == Some(id) <==>
            HexValue(s[0]) == Some(id[0] / 16) && HexValue(s[1]) == Some(id[0] % 16) &&
            HexDecode(s[2..]) == Some(id[1..])
  {
    var hi, lo, rest := HexValue(s[0]), HexValue(s[1]), HexDecode(s[2..]);
    if hi.Some? && lo.Some? && rest.Some? {
      DivUnique(16 * hi.value + lo.value, 16, hi.value, lo.value);
      assert HexDecode(s).value[1..] == rest.value;
      assert id == [id[0]] + id[1..];
    }
  }

  /** Comparing a text with the printed id, ignoring case, is decoding it: so a
      text names at most one id, in either case. */
  lemma {:induction false} HexMatchIsDecode(s: string, id: seq<byte>)
    ensures EqIgnoreCase(s, HexEncode(id)) <==> HexDecode(s) == Some(id)
  {
    if |s| >= 2 && id != [] {
      var h := HexEncode(id);
      FoldSplit(s, h);
      DecodeSplit(s, id);
      HexMatchIsDecode(s[2..], id[1..]);
      HexDigitMatches(s[0], id[0] / 16);
      HexDigitMatches(s[1], id[0] % 16);
      assert h[2..] == HexEncode(id[1..]);
    }
  }

  // ---- separators ------------------------------------------------------------------

  /** The pieces between separators; always at least one. */
  function SplitOn(s: string, sep: char): (r: seq<string>)
    ensures r != []
  {
    if s == "" then [""]
    else
      var rest := SplitOn(s[1..], sep);
      if s[0] == sep then [""] + rest else [[s[0]] + rest[0]] + rest[1..]
  }

  /** Where a separator can stand in `a + [sep] + x`. */
  lemma SeparatorAt(sep: char, a: string, x: string, i: nat)
    requires i < |a + [sep] + x| && (a + [sep] + x)[i] == sep
    ensures sep !in a ==> |a| <= i
    ensures sep !in x ==> i <= |a|
  {
    if i < |a| {
      assert a[i] == sep;
    } else if i > |a| {
      assert x[i - |a| - 1] == sep;
    }
  }

  lemma SameCut(sep: char, a: string, x: string, b: string, y: string)
    requires |a| == |b| && a + [sep] + x == b + [sep] + y
    ensures a == b && x == y
  {
    var s := a + [sep] + x;
    assert s[..|a|] == a && s[..|b|] == b && s[|a| + 1..] == x && s[|b| + 1..] == y;
  }

  /** Cutting at the first separator is unambiguous. */
  lemma CutAtSeparator(sep: char, a: string, x: string, b: string, y: string)
    requires sep !in a && sep !in b
    requires a + [sep] + x == b + [sep] + y
    ensures a == b && x == y
  {
    SeparatorAt(sep, a, x, |b|);
    SeparatorAt(sep, b, y, |a|);
    SameCut(sep, a, x, b, y);
  }

  /** Cutting at the last separator is unambiguous too. */
  lemma CutAtLast(sep: char, a: string, x: string, b: string, y: string)
    requires sep !in x && sep !in y
    requires a + [sep] + x == b + [sep] + y
    ensures a == b && x == y
  {
    SeparatorAt(sep, a, x, |b|);
    SeparatorAt(sep, b, y, |a|);
    SameCut(sep, a, x, b, y);
  }

  /** A text with one separator can only be cut there. */
  lemma CutAtOnly(sep: char, a: string, x: string, b: string, y: string)
    requires sep !in a && sep !in x
    requires a + [sep] + x == b + [sep] + y
    ensures a == b && x == y
  {
    SeparatorAt(sep, a, x, |b|);
    SameCut(sep, a, x, b, y);
  }

  /** A piece without the separator, then the rest. */
  lemma {:induction false} SplitHead(a: string, sep: char, rest: string)
    requires sep !in a
    ensures SplitOn(a + [sep] + rest, sep) == [a] + SplitOn(rest, sep)
  {
    var s := a + [sep] + rest;
    if a == "" {
      assert s[1..] == rest;
    } else {
      assert s[1..] == a[1..] + [sep] + rest;
      SplitHead(a[1..], sep, rest);
      assert [s[0]] + a[1..] == a;
    }
  }

  lemma {:induction false} SplitWhole(a: string, sep: char)
    requires sep !in a
    ensures SplitOn(a, sep) == [a]
  {
    if a != "" {
      SplitWhole(a[1..], sep);
      assert [a[0]] + a[1..] == a;
    }
  }

  /** What follows a piece without a separator joins its text. */
  lemma {:induction false} SplitPiece(a: string, sep: char, rest: string)
    requires sep !in a
    ensures SplitOn(a + rest, sep) == [a + SplitOn(rest, sep)[0]] + SplitOn(rest, sep)[1..]
  {
    var s, parts := a + rest, SplitOn(rest, sep);
    if a == "" {
      assert s == rest && "" + parts[0] == parts[0];
      assert [parts[0]] + parts[1..] == parts;
    } else {
      assert s[1..] == a[1..] + rest;
      SplitPiece(a[1..], sep, rest);
      assert [s[0]] + (a[1..] + parts[0]) == a + parts[0];
    }
  }
}
