/** The Warren address codec: SS58 with network prefix 13295 over base58. */
module Ss58 {
  import opened Wrappers
  import opened Machine
  import opened Bytes
  import opened Digits
  import Base58

  const WARREN_SS58_PREFIX: bv16 := 13295
  const SS58_CHECKSUM_PREFIX: seq<byte> := [0x53, 0x53, 0x35, 0x38, 0x50, 0x52, 0x45]
  const PREFIX_LEN := 2
  const PUBKEY_LEN := 32
  const CHECKSUM_LEN := 2
  const DECODED_LEN := PREFIX_LEN + PUBKEY_LEN + CHECKSUM_LEN
  const MAX_ADDRESS_LEN := 64

  type Digest = s: seq<byte> | |s| == 64 witness seq(64, _ => 0)

  /** Blake2b-512, an opaque function of the bytes it is fed. */
  type Hash = seq<byte> -> Digest

  datatype Ss58Error = BadBase58 | BadLength | WrongNetwork | BadChecksum

  // ---- the prefix -------------------------------------------------------------------

  /** The two prefix bytes, each held in 16 bits. */
  function PrefixBits(prefix: bv16): (bv16, bv16) {
    IdentBits(prefix & 0x3FFF)
  }

  function IdentBits(ident: bv16): (bv16, bv16) {
    (((ident & 0x00FC) >> 2) | 0x0040, (ident >> 8) | ((ident & 0x0003) << 6))
  }

  lemma PrefixFits(prefix: bv16)
    ensures PrefixBits(prefix).0 <= 0xFF && PrefixBits(prefix).1 <= 0xFF
  {
  }

  function EncodePrefix(prefix: bv16): (r: seq<byte>)
    ensures |r| == PREFIX_LEN
  {
    PrefixFits(prefix);
    var bits := PrefixBits(prefix);
    [ToByte(bits.0), ToByte(bits.1)]
  }

  function ToByte(b: bv16): byte
    requires b <= 0xFF
  {
    b as nat
  }

  lemma ToByteInjective(a: bv16, b: bv16)
    requires a <= 0xFF && b <= 0xFF
    ensures ToByte(a) == ToByte(b) <==> a == b
  {
    assert (a as nat) as bv16 == a && (b as nat) as bv16 == b;
  }

  lemma {:induction false} BytesAreBits(a: bv16, b: bv16)
    ensures EncodePrefix(a) == EncodePrefix(b) <==> PrefixBits(a) == PrefixBits(b)
  {
    PrefixFits(a);
    PrefixFits(b);
    var (p, q) := (PrefixBits(a), PrefixBits(b));
    ToByteInjective(p.0, q.0);
    ToByteInjective(p.1, q.1);
    assert EncodePrefix(a) == [ToByte(p.0), ToByte(p.1)] && EncodePrefix(b) == [ToByte(q.0), ToByte(q.1)];
    assert EncodePrefix(a) == EncodePrefix(b) ==>
        EncodePrefix(a)[0] == EncodePrefix(b)[0] && EncodePrefix(a)[1] == EncodePrefix(b)[1];
  }

  lemma PrefixRecovers(prefix: bv16)
    ensures var (p, q) := PrefixBits(prefix);
            p >> 6 == 1 && prefix & 0x3FFF == ((p & 0x003F) << 2) | (q >> 6) | ((q & 0x003F) << 8)
  {
  }

  lemma BitsInjective(a: bv16, b: bv16)
    ensures PrefixBits(a) == PrefixBits(b) <==> a & 0x3FFF == b & 0x3FFF
  {
    if PrefixBits(a) == PrefixBits(b) {
      PrefixRecovers(a);
      PrefixRecovers(b);
    }
  }

  /** Two prefixes get the same bytes exactly when their low 14 bits agree. */
  lemma {:induction false} PrefixInjective(a: bv16, b: bv16)
    ensures EncodePrefix(a) == EncodePrefix(b) <==> a & 0x3FFF == b & 0x3FFF
  {
    BytesAreBits(a, b);
    BitsInjective(a, b);
  }

  /** So the encoding is injective on the two-byte range. */
  lemma {:induction false} PrefixInjectiveInRange(a: bv16, b: bv16)
    requires 64 <= a <= 16383 && 64 <= b <= 16383 && EncodePrefix(a) == EncodePrefix(b)
    ensures a == b
  {
    PrefixInjective(a, b);
  }

  lemma WarrenPrefix()
    ensures EncodePrefix(WARREN_SS58_PREFIX) == [0x7B, 0xF3]
  {
  }

  // ---- the codec --------------------------------------------------------------------

  function Checksum(h: Hash, prefix: seq<byte>, pubkey: Key32): (r: seq<byte>)
    ensures |r| == CHECKSUM_LEN
  {
    h(SS58_CHECKSUM_PREFIX + prefix + pubkey)[..CHECKSUM_LEN]
  }

  function Payload(h: Hash, pubkey: Key32): (r: seq<byte>)
    ensures |r| == DECODED_LEN
  {
    var prefix := EncodePrefix(WARREN_SS58_PREFIX);
    prefix + pubkey + Checksum(h, prefix, pubkey)
  }

  function Encode(h: Hash, pubkey: Key32): string {
    Base58.Encode(Payload(h, pubkey))
  }

  /** The UTF-8 length of a text. */
  function ByteLen(s: string): nat {
    if s == "" then 0
    else
      var c := s[0] as int;
      (if c < 0x80 then 1 else if c < 0x800 then 2 else if c < 0x1_0000 then 3 else 4) + ByteLen(s[1..])
  }

  /** The checks behind the length gate. */
  function DecodeUngated(h: Hash, address: string): Result<Key32, Ss58Error> {
    match Base58.Decode(address)
    case None => Err(BadBase58)
    case Some(data) =>
      if |data| != DECODED_LEN then Err(BadLength)
      else
        var prefix := EncodePrefix(WARREN_SS58_PREFIX);
        if data[..PREFIX_LEN] != prefix then Err(WrongNetwork)
        else
          var pubkey: Key32 := data[PREFIX_LEN..PREFIX_LEN + PUBKEY_LEN];
          if data[PREFIX_LEN + PUBKEY_LEN..] != Checksum(h, prefix, pubkey) then Err(BadChecksum)
          else Ok(pubkey)
  }

  function Decode(h: Hash, address: string): Result<Key32, Ss58Error> {
    if ByteLen(address) > MAX_ADDRESS_LEN then Err(BadLength) else DecodeUngated(h, address)
  }

  method EncodeAddress(h: Hash, pubkey: Key32) returns (address: string)
    ensures address == Encode(h, pubkey)
  {
    var prefix := EncodePrefix(WARREN_SS58_PREFIX);
    var cs := Checksum(h, prefix, pubkey);
    var buf := new byte[DECODED_LEN](_ => 0);
    CopyInto(buf, 0, prefix);
    CopyInto(buf, PREFIX_LEN, pubkey);
    CopyInto(buf, PREFIX_LEN + PUBKEY_LEN, cs);
    assert buf[..] == Payload(h, pubkey);
    address := Base58.EncodeBytes(buf[..]);
  }

  // ---- round trip and canonicality -------------------------------------------------------

  /** The checks accept exactly the encoding of the key they return. */
  lemma UngatedExact(h: Hash, address: string, pubkey: Key32)
    ensures DecodeUngated(h, address) == Ok(pubkey) <==> address == Encode(h, pubkey)
  {
    var payload := Payload(h, pubkey);
    Base58.Bijection(address, payload);
    if address == Encode(h, pubkey) {
      assert payload[..PREFIX_LEN] == EncodePrefix(WARREN_SS58_PREFIX);
      assert payload[PREFIX_LEN..PREFIX_LEN + PUBKEY_LEN] == pubkey;
      assert payload[PREFIX_LEN + PUBKEY_LEN..] == Checksum(h, EncodePrefix(WARREN_SS58_PREFIX), pubkey);
    }
    if DecodeUngated(h, address) == Ok(pubkey) {
      var data := Base58.Decode(address).value;
      assert data == data[..PREFIX_LEN] + data[PREFIX_LEN..PREFIX_LEN + PUBKEY_LEN] + data[PREFIX_LEN + PUBKEY_LEN..];
    }
  }

  // ---- shape ------------------------------------------------------------------------------

  lemma PowersOf58()
    ensures Pow(58, 47) == 76052885730833034359667250152955132889730604836002176491835299687357552942175485952
  {
    assert Pow(58, 1) == 58;
    PowAdd(58, 1, 1);
    assert Pow(58, 2) == 3364;
    PowAdd(58, 2, 2);
    assert Pow(58, 4) == 11316496;
    PowAdd(58, 4, 1);
    assert Pow(58, 5) == 656356768;
    PowAdd(58, 5, 5);
    assert Pow(58, 10) == 430804206899405824;
    PowAdd(58, 10, 1);
    assert Pow(58, 11) == 24986644000165537792;
    PowAdd(58, 11, 11);
    assert Pow(58, 22) == 624332378391008467754527498760580235264;
    PowAdd(58, 22, 1);
    assert Pow(58, 23) == 36211277946678491129762594928113653645312;
    PowAdd(58, 23, 23);
    assert Pow(58, 46) == 1311256650531604040683918106085433325685010428206934077445436201506164705899577344;
    PowAdd(58, 46, 1);
    assert Pow(58, 47) == 76052885730833034359667250152955132889730604836002176491835299687357552942175485952;
  }

  lemma PowersOf256()
    ensures Pow(256, 34) == 7588550360256754183279148073529370729071901715047420004889892225542594864082845696
  {
    assert Pow(256, 1) == 256;
    PowAdd(256, 1, 1);
    assert Pow(256, 2) == 65536;
    PowAdd(256, 2, 2);
    assert Pow(256, 4) == 4294967296;
    PowAdd(256, 4, 4);
    assert Pow(256, 8) == 18446744073709551616;
    PowAdd(256, 8, 8);
    assert Pow(256, 16) == 340282366920938463463374607431768211456;
    PowAdd(256, 16, 1);
    assert Pow(256, 17) == 87112285931760246646623899502532662132736;
    PowAdd(256, 17, 17);
    assert Pow(256, 34) == 7588550360256754183279148073529370729071901715047420004889892225542594864082845696;
  }

  lemma LeadingDigits()
    ensures DigitsOf(3166, 58) == [54, 34]
  {
    Append(0, 54, 58);
    Append(54, 34, 58);
  }

  lemma TwoDigitValue(a: byte, b: byte)
    ensures Value([a, b], 256) == a * 256 + b
  {
    assert [a][..0] == [];
    assert Value([a], 256) == a;
    assert [a, b][..1] == [a];
  }

  /** Where the prefix puts the payload: its quotient by 58^47 is 3166 = 54 * 58 + 34. */
  lemma PayloadRange(rest: seq<byte>) returns (r: nat)
    requires |rest| == 34
    ensures Value([0x7B, 0xF3] + rest, 256) == 3166 * Pow(58, 47) + r && r < Pow(58, 47)
  {
    ValueSplit([0x7B, 0xF3], rest, 256);
    TwoDigitValue(0x7B, 0xF3);
    ValueBound(rest, 256);
    PowersOf58();
    PowersOf256();
    r := Value([0x7B, 0xF3] + rest, 256) - 3166 * Pow(58, 47);
  }

  /** The base58 digits of any payload with the Warren prefix. */
  lemma PayloadDigits(payload: seq<byte>)
    requires |payload| == DECODED_LEN && payload[..2] == [0x7B, 0xF3]
    ensures var ds := Convert(payload, 256, 58);
            |ds| == 49 && Below(ds, 58) && ds[0] == 54 && ds[1] == 34
  {
    var rest := payload[2..];
    assert payload == [0x7B, 0xF3] + rest;
    var r := PayloadRange(rest);
    TopDigits(3166, r, 58, 47);
    LeadingDigits();
    ConvertRoundTrip(payload, 256, 58);
    assert LeadingZeros(payload) == 0;
    assert Zeros(0) == [];
    assert Convert(payload, 256, 58) == DigitsOf(Value(payload, 256), 58);
  }

  /** Whatever the key and the checksum, an address has exactly 49 characters and starts
      with "wb". */
  lemma Shape(h: Hash, pubkey: Key32)
    ensures |Encode(h, pubkey)| == 49
    ensures Encode(h, pubkey)[..2] == "wb"
  {
    WarrenPrefix();
    var payload := Payload(h, pubkey);
    assert payload[..2] == EncodePrefix(WARREN_SS58_PREFIX);
    PayloadDigits(payload);
    FirstTwoChars(Convert(payload, 256, 58));
  }

  lemma FirstTwoChars(ds: seq<nat>)
    requires Below(ds, 58) && |ds| >= 2 && ds[0] == 54 && ds[1] == 34
    ensures Base58.Chars(ds)[..2] == "wb"
  {
    assert Base58.Chars(ds)[1] == Base58.Chars(ds[1..])[0];
  }

  lemma {:induction false} AlphabetIsAscii(ds: seq<nat>)
    requires Below(ds, 58)
    ensures ByteLen(Base58.Chars(ds)) == |ds|
    ensures forall c :: c in Base58.Chars(ds) ==> c != ':' && c != '\n' && c != '\r'
  {
    if ds != [] {
      AlphabetIsAscii(ds[1..]);
      assert Base58.Chars(ds)[1..] == Base58.Chars(ds[1..]);
    }
  }

  lemma AddressIsAscii(h: Hash, pubkey: Key32)
    ensures ByteLen(Encode(h, pubkey)) == |Encode(h, pubkey)|
    ensures forall c :: c in Encode(h, pubkey) ==> c != ':' && c != '\n' && c != '\r'
  {
    ConvertRoundTrip(Payload(h, pubkey), 256, 58);
    AlphabetIsAscii(Convert(Payload(h, pubkey), 256, 58));
  }

  /** The length gate never changes which texts decode, nor to what. */
  lemma GateInvisible(h: Hash, address: string, pubkey: Key32)
    ensures Decode(h, address) == Ok(pubkey) <==> DecodeUngated(h, address) == Ok(pubkey)
  {
    if DecodeUngated(h, address) == Ok(pubkey) {
      UngatedExact(h, address, pubkey);
      Shape(h, pubkey);
      AddressIsAscii(h, pubkey);
    }
  }

  /** Round trip and canonicality at once: each key has exactly one accepted address, its
      encoding. */
  lemma DecodeExact(h: Hash, address: string, pubkey: Key32)
    ensures Decode(h, address) == Ok(pubkey) <==> address == Encode(h, pubkey)
  {
    GateInvisible(h, address, pubkey);
    UngatedExact(h, address, pubkey);
  }

  // ---- what an address is, on its decoded bytes ----------------------------------------------

  /** "SS58PRE", in ASCII, then prefix and key: what the checksum hashes. */
  function Hashed(pubkey: Key32): seq<byte> {
    [0x53, 0x53, 0x35, 0x38, 0x50, 0x52, 0x45] + [0x7B, 0xF3] + pubkey
  }

  lemma ChecksumMeans(h: Hash, pubkey: Key32)
    ensures Checksum(h, EncodePrefix(WARREN_SS58_PREFIX), pubkey) == h(Hashed(pubkey))[..2]
  {
    WarrenPrefix();
  }

  /** A text decodes to a key exactly when it is base58 of 36 bytes: the network's two, the
      key's 32, and the first two of the digest of "SS58PRE" and the bytes before. */
  lemma DecodeMeans(h: Hash, address: string, pubkey: Key32)
    ensures Decode(h, address) == Ok(pubkey) <==>
            && Base58.Decode(address).Some?
            && var data := Base58.Decode(address).value;
               && |data| == 36 && data[..2] == [0x7B, 0xF3] && data[2..34] == pubkey
               && data[34..] == h([0x53, 0x53, 0x35, 0x38, 0x50, 0x52, 0x45] + data[..34])[..2]
  {
    GateInvisible(h, address, pubkey);
    WarrenPrefix();
    ChecksumMeans(h, pubkey);
    if Base58.Decode(address).Some? {
      var data := Base58.Decode(address).value;
      if |data| == 36 && data[..2] == [0x7B, 0xF3] && data[2..34] == pubkey {
        assert data[..34] == data[..2] + data[2..34];
        assert [0x53, 0x53, 0x35, 0x38, 0x50, 0x52, 0x45] + data[..34] == Hashed(pubkey);
      }
    }
  }

  /** Every refusal, by the first check that fails. */
  lemma DecodeErrors(h: Hash, address: string)
    ensures Decode(h, address) == Err(BadLength) <==>
            ByteLen(address) > 64 || (Base58.Decode(address).Some? && |Base58.Decode(address).value| != 36)
    ensures Decode(h, address) == Err(BadBase58) <==> ByteLen(address) <= 64 && Base58.Decode(address).None?
    ensures Decode(h, address) == Err(WrongNetwork) <==>
            && ByteLen(address) <= 64 && Base58.Decode(address).Some? && |Base58.Decode(address).value| == 36
            && Base58.Decode(address).value[..2] != [0x7B, 0xF3]
    ensures Decode(h, address) == Err(BadChecksum) <==>
            && ByteLen(address) <= 64 && Base58.Decode(address).Some? && |Base58.Decode(address).value| == 36
            && Base58.Decode(address).value[..2] == [0x7B, 0xF3]
            && Base58.Decode(address).value[34..] != h(Hashed(Base58.Decode(address).value[2..34]))[..2]
  {
    WarrenPrefix();
    if Base58.Decode(address).Some? && |Base58.Decode(address).value| == 36 {
      ChecksumMeans(h, Base58.Decode(address).value[2..34]);
    }
  }

  /** The address of a key is base58 of those bytes. */
  lemma EncodeMeans(h: Hash, pubkey: Key32)
    ensures Base58.Decode(Encode(h, pubkey)) == Some([0x7B, 0xF3] + pubkey + h(Hashed(pubkey))[..2])
  {
    WarrenPrefix();
    ChecksumMeans(h, pubkey);
    Base58.Bijection(Encode(h, pubkey), Payload(h, pubkey));
  }

  /** The UTF-8 length is between one and four bytes a character, and one exactly in ASCII. */
  lemma {:induction false} ByteLenMeans(s: string)
    ensures |s| <= ByteLen(s) <= 4 * |s|
    ensures ByteLen(s) == |s| <==> forall i :: 0 <= i < |s| ==> s[i] as int < 0x80
  {
    if s != "" {
      ByteLenMeans(s[1..]);
      assert forall i :: 0 < i < |s| ==> s[i] == s[1..][i - 1];
      assert forall i :: 0 <= i < |s| - 1 ==> s[1..][i] == s[i + 1];
    }
  }
}
