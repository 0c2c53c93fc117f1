/** Base58, as the codec's library computes it: the alphabet and the two conversions. */
module Base58 {
  import opened Wrappers
  import opened Machine
  import opened Digits

  /** The alphabet: digits and letters without 0, I, O and l, in ASCII order. */
  function CharOf(d: nat): char
    requires d < 58
  {
    if d < 9 then ('1' as int + d) as char
    else if d < 17 then ('A' as int + d - 9) as char
    else if d < 22 then ('J' as int + d - 17) as char
    else if d < 33 then ('P' as int + d - 22) as char
    else if d < 44 then ('a' as int + d - 33) as char
    else ('m' as int + d - 44) as char
  }

  /** The inverse of the alphabet, as contiguous runs. */
  function IndexOf(c: char): (r: Option<nat>)
    ensures r.Some? ==> r.value < 58
  {
    var n := c as int;
    if '1' <= c <= '9' then Some(n - '1' as int)
    else if 'A' <= c <= 'H' then Some(n - 'A' as int + 9)
    else if 'J' <= c <= 'N' then Some(n - 'J' as int + 17)
    else if 'P' <= c <= 'Z' then Some(n - 'P' as int + 22)
    else if 'a' <= c <= 'k' then Some(n - 'a' as int + 33)
    else if 'm' <= c <= 'z' then Some(n - 'm' as int + 44)
    else None
  }

  const ALPHABET: string := "123456789" + "ABCDEFGH" + "JKLMN" + "PQRSTUVWXYZ" + "abcdefghijk" + "mnopqrstuvwxyz"

  /** The runs spell the alphabet of section 2 of draft-msporny-base58. */
  lemma AlphabetSpelled(d: nat)
    requires d < 58
    ensures |ALPHABET| == 58 && CharOf(d) == ALPHABET[d]
  {
    var runs := ["123456789", "ABCDEFGH", "JKLMN", "PQRSTUVWXYZ", "abcdefghijk", "mnopqrstuvwxyz"];
    if d < 9 {
      assert CharOf(d) == runs[0][d];
    } else if d < 17 {
      assert CharOf(d) == runs[1][d - 9];
    } else if d < 22 {
      assert CharOf(d) == runs[2][d - 17];
    } else if d < 33 {
      assert CharOf(d) == runs[3][d - 22];
    } else if d < 44 {
      assert CharOf(d) == runs[4][d - 33];
    } else {
      assert CharOf(d) == runs[5][d - 44];
    }
  }

  lemma AlphabetInverse(c: char, d: nat)
    requires d < 58
    ensures IndexOf(c) == Some(d) <==> CharOf(d) == c
  {
  }

  function Chars(ds: seq<nat>): (s: string)
    requires Below(ds, 58)
    ensures |s| == |ds|
  {
    if ds == [] then "" else [CharOf(ds[0])] + Chars(ds[1..])
  }

  function Indices(s: string): (r: Option<seq<nat>>)
    ensures r.Some? ==> |r.value| == |s| && Below(r.value, 58)
  {
    if s == "" then Some([])
    else
      match (IndexOf(s[0]), Indices(s[1..]))
      case (Some(d), Some(rest)) => Some([d] + rest)
      case _ => None
  }

  lemma {:induction false} IndicesInverse(s: string, ds: seq<nat>)
    requires Below(ds, 58)
    ensures Indices(s) == Some(ds) <==> Chars(ds) == s
  {
    if s != "" && ds != [] {
      AlphabetInverse(s[0], ds[0]);
      IndicesInverse(s[1..], ds[1..]);
      assert ds == [ds[0]] + ds[1..];
      assert s == [s[0]] + s[1..];
      assert Chars(ds)[1..] == Chars(ds[1..]);
    }
  }

  function Encode(bytes: seq<byte>): string {
    ConvertRoundTrip(bytes, 256, 58);
    Chars(Convert(bytes, 256, 58))
  }

  function Decode(s: string): (r: Option<seq<byte>>) {
    match Indices(s)
    case None => None
    case Some(ds) =>
      ConvertRoundTrip(ds, 58, 256);
      Some(AsBytes(Convert(ds, 58, 256)))
  }

  function AsBytes(ds: seq<nat>): (b: seq<byte>)
    requires Below(ds, 256)
    ensures b == ds
  {
    ds
  }

  method EncodeBytes(bytes: seq<byte>) returns (s: string)
    ensures s == Encode(bytes)
  {
    var digits := ConvertDigits(bytes, 256, 58);
    ConvertRoundTrip(bytes, 256, 58);
    s := Chars(digits);
  }

  method DecodeString(s: string) returns (r: Option<seq<byte>>)
    ensures r == Decode(s)
  {
    var digits := Indices(s);
    if digits.None? {
      return None;
    }
    var bytes := ConvertDigits(digits.value, 58, 256);
    ConvertRoundTrip(digits.value, 58, 256);
    r := Some(bytes);
  }

  /** Decoding inverts encoding, and an accepted string is the encoding of its bytes:
      the codec is a bijection between byte strings and base58 strings. */
  lemma Bijection(s: string, bytes: seq<byte>)
    ensures Decode(s) == Some(bytes) <==> Encode(bytes) == s
  {
    var ds := Convert(bytes, 256, 58);
    ConvertRoundTrip(bytes, 256, 58);
    IndicesInverse(s, ds);
    if Decode(s) == Some(bytes) {
      var es := Indices(s).value;
      ConvertRoundTrip(es, 58, 256);
      IndicesInverse(s, es);
    }
  }

  /** The characters of a text are the alphabet's at some digits. */
  ghost predicate Spells(s: string, ds: seq<nat>) {
    |s| == |ds| && forall i :: 0 <= i < |ds| ==> ds[i] < 58 && s[i] == CharOf(ds[i])
  }

  lemma {:induction false} SpellsIff(s: string, ds: seq<nat>)
    ensures Indices(s) == Some(ds) <==> Spells(s, ds)
  {
    if s != "" && ds != [] {
      SpellsIff(s[1..], ds[1..]);
      assert ds == [ds[0]] + ds[1..];
      if ds[0] < 58 {
        AlphabetInverse(s[0], ds[0]);
      }
      assert forall i :: 0 < i < |s| ==> s[i] == s[1..][i - 1];
      assert forall i :: 0 < i < |ds| ==> ds[i] == ds[1..][i - 1];
    }
  }

  /** A text is the encoding of bytes exactly when its digits are the same number, with as
      many leading zeros. */
  lemma EncodeMeans(s: string, bytes: seq<byte>)
    ensures Encode(bytes) == s <==>
            exists ds :: Spells(s, ds) && Value(ds, 58) == Value(bytes, 256) && LeadingZeros(ds) == LeadingZeros(bytes)
  {
    var ds := Convert(bytes, 256, 58);
    ConvertRoundTrip(bytes, 256, 58);
    IndicesInverse(s, ds);
    SpellsIff(s, ds);
    ConvertMeans(bytes, 256, 58);
    forall es | Spells(s, es) && Value(es, 58) == Value(bytes, 256) && LeadingZeros(es) == LeadingZeros(bytes)
      ensures es == ds
    {
      Canonical(es, 58);
    }
  }

  // ---- sizes -----------------------------------------------------------------------

  lemma {:induction false} ThirtyTwoIsSmaller(n: nat)
    ensures Pow(2, 5 * n) <= Pow(58, n)
  {
    if n > 0 {
      ThirtyTwoIsSmaller(n - 1);
      PowAdd(2, 5, 5 * (n - 1));
      assert Pow(2, 5) == 32;
      MulMonotone(32, 58, Pow(2, 5 * (n - 1)), Pow(58, n - 1));
    }
  }

  lemma {:induction false} ByteIsEightBits(n: nat)
    ensures Pow(256, n) == Pow(2, 8 * n)
  {
    if n > 0 {
      ByteIsEightBits(n - 1);
      PowAdd(2, 8, 8 * (n - 1));
      assert Pow(2, 8) == 256 by {
        assert Pow(2, 4) == 16;
        PowAdd(2, 4, 4);
      }
    }
  }

  lemma PowMonotone(b: nat, m: nat, n: nat)
    requires b > 0 && m <= n
    ensures Pow(b, m) <= Pow(b, n)
  {
    PowAdd(b, m, n - m);
    PowPositive(b, n - m);
    MulMonotone(Pow(b, m), Pow(b, m), 1, Pow(b, n - m));
  }

  lemma BytesFitText(v: nat, m: nat, z: nat)
    requires v < Pow(256, m) && m + z <= 36
    ensures |DigitsOf(v, 58)| <= 64 - z
  {
    ByteIsEightBits(m);
    PowMonotone(2, 8 * m, 5 * (64 - z));
    ThirtyTwoIsSmaller(64 - z);
    DigitCount(v, 58, 64 - z);
  }

  /** At most 36 bytes never need more than 64 characters. */
  lemma ShortBytesShortText(bytes: seq<byte>)
    requires |bytes| <= 36
    ensures |Encode(bytes)| <= 64
  {
    var z, v := LeadingZeros(bytes), Value(bytes, 256);
    var digits := DigitsOf(v, 256);
    Canonical(bytes, 256);
    assert |bytes| == z + |digits|;
    DigitsBelow(v, 256);
    ValueBound(digits, 256);
    ValueOfDigits(v, 256);
    BytesFitText(v, |digits|, z);
  }

  /** So a text of more than 64 characters, if it is base58 at all, decodes to more than
      36 bytes. */
  lemma LongTextLongBytes(s: string)
    requires |s| > 64 && Decode(s).Some?
    ensures |Decode(s).value| > 36
  {
    var bytes := Decode(s).value;
    Bijection(s, bytes);
    if |bytes| <= 36 {
      ShortBytesShortText(bytes);
    }
  }
}
