/** The port-forward attribution tag and the entitlement envelope: two fixed layouts, each
    read back exactly. The AEAD and the signature are opaque functions. */
module Attribution {
  import opened Wrappers
  import opened Machine
  import opened Digits
  import opened Bytes

  /** "warren/pf-attribution/v1" */
  const DOMAIN: seq<byte> :=
    [0x77, 0x61, 0x72, 0x72, 0x65, 0x6E, 0x2F, 0x70, 0x66, 0x2D, 0x61, 0x74,
     0x74, 0x72, 0x69, 0x62, 0x75, 0x74, 0x69, 0x6F, 0x6E, 0x2F, 0x76, 0x31]

  const TAG_VERSION: byte := 1
  const NONCE_LEN := 24
  const ACCOUNT_PUBKEY_LEN := 32
  const CIPHERTEXT_LEN := ACCOUNT_PUBKEY_LEN + 16
  const SIGNATURE_LEN := 64
  const TAG_LEN := 1 + 8 + NONCE_LEN + CIPHERTEXT_LEN + SIGNATURE_LEN
  const AAD_LEN := 24 + 1 + 8
  const SIGNING_PREIMAGE_LEN := AAD_LEN + NONCE_LEN + CIPHERTEXT_LEN
  const ENVELOPE_VERSION: byte := 1
  const TOKEN_LEN := 354
  const ENVELOPE_LEN := 1 + TOKEN_LEN + TAG_LEN

  const EPOCH_AT := 1
  const NONCE_AT := EPOCH_AT + 8
  const CIPHERTEXT_AT := NONCE_AT + NONCE_LEN
  const SIGNATURE_AT := CIPHERTEXT_AT + CIPHERTEXT_LEN

  /** A parsed tag: well-formed and of the known version. */
  type Tag = s: seq<byte> | |s| == TAG_LEN && s[0] == TAG_VERSION witness [1] + seq(144, _ => 0)

  datatype TagError = WrongTagLength(actual: nat) | UnsupportedTagVersion(got: byte)

  datatype Envelope = Envelope(token: seq<byte>, tag: Tag)

  datatype EnvelopeError =
    | WrongLength(actual: nat)
    | UnsupportedVersion(got: byte)
    | TokenLength(actual: nat)
    | BadTag(error: TagError)

  // ---- the tag ---------------------------------------------------------------------------

  function FromBytes(bytes: seq<byte>): Result<Tag, TagError> {
    if |bytes| != TAG_LEN then Err(WrongTagLength(|bytes|))
    else if bytes[0] != TAG_VERSION then Err(UnsupportedTagVersion(bytes[0]))
    else Ok(bytes)
  }

  function Epoch(tag: Tag): u64 {
    EightBytes();
    ValueBound(tag[EPOCH_AT..NONCE_AT], 256);
    Value(tag[EPOCH_AT..NONCE_AT], 256)
  }

  function Nonce(tag: Tag): seq<byte> {
    tag[NONCE_AT..CIPHERTEXT_AT]
  }

  function Ciphertext(tag: Tag): seq<byte> {
    tag[CIPHERTEXT_AT..SIGNATURE_AT]
  }

  function Signature(tag: Tag): seq<byte> {
    tag[SIGNATURE_AT..]
  }

  function Aad(epoch: u64): (r: seq<byte>)
    ensures |r| == AAD_LEN
  {
    DOMAIN + [TAG_VERSION] + BigEndian(epoch, 8)
  }

  function SigningPreimage(epoch: u64, nonce: seq<byte>, ciphertext: seq<byte>): seq<byte> {
    Aad(epoch) + nonce + ciphertext
  }

  function TagPreimage(tag: Tag): seq<byte> {
    SigningPreimage(Epoch(tag), Nonce(tag), Ciphertext(tag))
  }

  /** The associated data, byte by byte: the domain, the version, the epoch high byte first. */
  lemma AadMeans(epoch: u64)
    ensures |Aad(epoch)| == 33
    ensures Aad(epoch)[..24] == [0x77, 0x61, 0x72, 0x72, 0x65, 0x6E, 0x2F, 0x70, 0x66, 0x2D, 0x61, 0x74,
                                 0x74, 0x72, 0x69, 0x62, 0x75, 0x74, 0x69, 0x6F, 0x6E, 0x2F, 0x76, 0x31]
    ensures Aad(epoch)[24] == 1
    ensures Value(Aad(epoch)[25..], 256) == epoch
  {
    assert Aad(epoch)[25..] == BigEndian(epoch, 8);
    EightBytes();
    BigEndianInverse(epoch, BigEndian(epoch, 8));
  }

  /** What is signed: the associated data, then nonce, then ciphertext. */
  lemma PreimageMeans(epoch: u64, nonce: seq<byte>, ciphertext: seq<byte>)
    requires |nonce| == 24 && |ciphertext| == 48
    ensures var p := SigningPreimage(epoch, nonce, ciphertext);
            && |p| == 105 && p[..33] == Aad(epoch) && p[33..57] == nonce && p[57..] == ciphertext
  {
  }

  /** Where a tag keeps its fields: 145 bytes, a version, and four fixed ranges. */
  lemma TagMeans(tag: Tag)
    ensures |tag| == 145 && tag[0] == 1
    ensures Epoch(tag) == Value(tag[1..9], 256) && Nonce(tag) == tag[9..33]
    ensures Ciphertext(tag) == tag[33..81] && Signature(tag) == tag[81..]
    ensures TagPreimage(tag)[25..33] == tag[1..9] && TagPreimage(tag)[33..] == tag[9..81]
  {
    var p := TagPreimage(tag);
    EightBytes();
    ValueBound(tag[1..9], 256);
    BigEndianInverse(Epoch(tag), tag[1..9]);
    assert p[25..33] == BigEndian(Epoch(tag), 8);
    assert p[33..] == Nonce(tag) + Ciphertext(tag);
  }

  lemma FromBytesExact(bytes: seq<byte>, tag: Tag)
    ensures FromBytes(bytes) == Ok(tag) <==> bytes == tag
    ensures |bytes| != 145 ==> FromBytes(bytes) == Err(WrongTagLength(|bytes|))
    ensures |bytes| == 145 && bytes[0] != 1 ==> FromBytes(bytes) == Err(UnsupportedTagVersion(bytes[0]))
  {
  }

  method AadBuffer(epoch: u64) returns (out: array<byte>)
    ensures fresh(out) && out[..] == Aad(epoch)
  {
    out := new byte[AAD_LEN](_ => 0);
    CopyInto(out, 0, DOMAIN);
    CopyInto(out, |DOMAIN|, [TAG_VERSION]);
    CopyInto(out, |DOMAIN| + 1, BigEndian(epoch, 8));
  }

  method SigningPreimageBuffer(epoch: u64, nonce: seq<byte>, ciphertext: seq<byte>) returns (out: array<byte>)
    requires |nonce| == NONCE_LEN && |ciphertext| == CIPHERTEXT_LEN
    ensures fresh(out) && out[..] == SigningPreimage(epoch, nonce, ciphertext)
  {
    var aad := AadBuffer(epoch);
    out := new byte[SIGNING_PREIMAGE_LEN](_ => 0);
    CopyInto(out, 0, aad[..]);
    CopyInto(out, AAD_LEN, nonce);
    CopyInto(out, AAD_LEN + NONCE_LEN, ciphertext);
  }

  /** The AEAD and the signature, with the keys fixed. */
  datatype Sealer = Sealer(encrypt: (seq<byte>, seq<byte>, Key32) -> seq<byte>, sign: seq<byte> -> seq<byte>) {
    ghost predicate Valid() {
      && (forall nonce, aad, plain :: |encrypt(nonce, aad, plain)| == CIPHERTEXT_LEN)
      && (forall msg :: |sign(msg)| == SIGNATURE_LEN)
    }
  }

  method SealWithNonce(sealer: Sealer, epoch: u64, nonce: seq<byte>, account: Key32) returns (tag: Tag)
    requires sealer.Valid() && |nonce| == NONCE_LEN
    ensures Epoch(tag) == epoch && Nonce(tag) == nonce
    ensures Ciphertext(tag) == sealer.encrypt(nonce, Aad(epoch), account)
    ensures Signature(tag) == sealer.sign(TagPreimage(tag))
  {
    var aad := AadBuffer(epoch);
    var ciphertext := sealer.encrypt(nonce, aad[..], account);
    var preimage := SigningPreimageBuffer(epoch, nonce, ciphertext);
    var signature := sealer.sign(preimage[..]);
    var out := TagBuffer(epoch, nonce, ciphertext, signature);
    LayoutReads(epoch, nonce, ciphertext, signature);
    tag := out[..];
  }

  method TagBuffer(epoch: u64, nonce: seq<byte>, ciphertext: seq<byte>, signature: seq<byte>) returns (out: array<byte>)
    requires |nonce| == NONCE_LEN && |ciphertext| == CIPHERTEXT_LEN && |signature| == SIGNATURE_LEN
    ensures fresh(out) && out[..] == Layout(epoch, nonce, ciphertext, signature)
  {
    out := new byte[TAG_LEN](_ => 0);
    CopyInto(out, 0, [TAG_VERSION]);
    assert out[..EPOCH_AT] == [TAG_VERSION];
    CopyInto(out, EPOCH_AT, BigEndian(epoch, 8));
    CopyInto(out, NONCE_AT, nonce);
    CopyInto(out, CIPHERTEXT_AT, ciphertext);
    CopyInto(out, SIGNATURE_AT, signature);
    assert out[..TAG_LEN] == out[..];
  }

  function Layout(epoch: u64, nonce: seq<byte>, ciphertext: seq<byte>, signature: seq<byte>): seq<byte> {
    [TAG_VERSION] + BigEndian(epoch, 8) + nonce + ciphertext + signature
  }

  /** Reading back the four fields of a laid-out tag. */
  lemma LayoutReads(epoch: u64, nonce: seq<byte>, ciphertext: seq<byte>, signature: seq<byte>)
    requires |nonce| == NONCE_LEN && |ciphertext| == CIPHERTEXT_LEN && |signature| == SIGNATURE_LEN
    ensures FromBytes(Layout(epoch, nonce, ciphertext, signature)).Ok?
    ensures var tag := FromBytes(Layout(epoch, nonce, ciphertext, signature)).value;
            Epoch(tag) == epoch && Nonce(tag) == nonce && Ciphertext(tag) == ciphertext && Signature(tag) == signature
  {
    var tag := Layout(epoch, nonce, ciphertext, signature);
    assert tag[EPOCH_AT..NONCE_AT] == BigEndian(epoch, 8);
    EightBytes();
    BigEndianInverse(epoch, BigEndian(epoch, 8));
    assert tag[NONCE_AT..CIPHERTEXT_AT] == nonce;
    assert tag[CIPHERTEXT_AT..SIGNATURE_AT] == ciphertext;
    assert tag[SIGNATURE_AT..] == signature;
  }

  /** A tag is its four fields. */
  lemma TagIsLayout(tag: Tag)
    ensures tag == Layout(Epoch(tag), Nonce(tag), Ciphertext(tag), Signature(tag))
  {
    EightBytes();
    ValueBound(tag[EPOCH_AT..NONCE_AT], 256);
    BigEndianInverse(Epoch(tag), tag[EPOCH_AT..NONCE_AT]);
    assert tag == tag[..1] + tag[EPOCH_AT..NONCE_AT] + tag[NONCE_AT..CIPHERTEXT_AT] +
                  tag[CIPHERTEXT_AT..SIGNATURE_AT] + tag[SIGNATURE_AT..];
  }

  /** The signed preimage determines epoch, nonce and ciphertext. */
  lemma PreimageInjective(e: u64, n: seq<byte>, c: seq<byte>, e': u64, n': seq<byte>, c': seq<byte>)
    requires |n| == |n'| == NONCE_LEN && |c| == |c'| == CIPHERTEXT_LEN
    requires SigningPreimage(e, n, c) == SigningPreimage(e', n', c')
    ensures e == e' && n == n' && c == c'
  {
    var (p, p') := (SigningPreimage(e, n, c), SigningPreimage(e', n', c'));
    assert p[25..33] == BigEndian(e, 8) && p'[25..33] == BigEndian(e', 8);
    EightBytes();
    BigEndianInverse(e, BigEndian(e, 8));
    BigEndianInverse(e', BigEndian(e', 8));
    assert p[AAD_LEN..AAD_LEN + NONCE_LEN] == n && p'[AAD_LEN..AAD_LEN + NONCE_LEN] == n';
    assert p[AAD_LEN + NONCE_LEN..] == c && p'[AAD_LEN + NONCE_LEN..] == c';
  }

  /** Preimage and signature determine all 145 bytes: no bit of a tag is unsigned. */
  lemma TagDetermined(a: Tag, b: Tag)
    ensures a == b <==> TagPreimage(a) == TagPreimage(b) && Signature(a) == Signature(b)
  {
    if TagPreimage(a) == TagPreimage(b) && Signature(a) == Signature(b) {
      PreimageInjective(Epoch(a), Nonce(a), Ciphertext(a), Epoch(b), Nonce(b), Ciphertext(b));
      TagIsLayout(a);
      TagIsLayout(b);
    }
  }

  // ---- the envelope --------------------------------------------------------------------------

  function NewEnvelope(token: seq<byte>, tag: Tag): Result<Envelope, EnvelopeError> {
    if |token| != TOKEN_LEN then Err(TokenLength(|token|)) else Ok(Envelope(token, tag))
  }

  function Parse(bytes: seq<byte>): Result<Envelope, EnvelopeError> {
    if |bytes| != ENVELOPE_LEN then Err(WrongLength(|bytes|))
    else if bytes[0] != ENVELOPE_VERSION then Err(UnsupportedVersion(bytes[0]))
    else
      match FromBytes(bytes[1..][TOKEN_LEN..])
      case Err(e) => Err(BadTag(e))
      case Ok(tag) => NewEnvelope(bytes[1..][..TOKEN_LEN], tag)
  }

  method Encode(e: Envelope) returns (bytes: seq<byte>)
    requires |e.token| == TOKEN_LEN
    ensures Parse(bytes) == Ok(e)
    ensures forall b :: Parse(b) == Ok(e) ==> b == bytes
  {
    var out := new byte[ENVELOPE_LEN](_ => 0);
    CopyInto(out, 0, [ENVELOPE_VERSION]);
    CopyInto(out, 1, e.token);
    CopyInto(out, 1 + TOKEN_LEN, e.tag);
    bytes := out[..];
    assert bytes == Encoded(e);
    forall b ensures Parse(b) == Ok(e) <==> b == bytes {
      ParseExact(b, e);
    }
  }

  function Encoded(e: Envelope): seq<byte> {
    [ENVELOPE_VERSION] + e.token + e.tag
  }

  /** Parsing accepts exactly the encoding of the envelope it returns, and every envelope
      built by `NewEnvelope` is accepted. */
  lemma ParseExact(bytes: seq<byte>, e: Envelope)
    ensures Parse(bytes) == Ok(e) <==> |e.token| == TOKEN_LEN && bytes == Encoded(e)
  {
    if |e.token| == TOKEN_LEN && bytes == Encoded(e) {
      assert bytes[1..] == e.token + e.tag;
      assert bytes[1..][TOKEN_LEN..] == e.tag && bytes[1..][..TOKEN_LEN] == e.token;
    }
    if Parse(bytes) == Ok(e) {
      assert bytes == [bytes[0]] + bytes[1..][..TOKEN_LEN] + bytes[1..][TOKEN_LEN..];
    }
  }

  /** The envelope, byte by byte: version 1, the 354 bytes of the token, the 145 of the tag; and
      every refusal, by the first check that fails. */
  lemma ParseMeans(bytes: seq<byte>)
    ensures |bytes| != 500 ==> Parse(bytes) == Err(WrongLength(|bytes|))
    ensures |bytes| == 500 && bytes[0] != 1 ==> Parse(bytes) == Err(UnsupportedVersion(bytes[0]))
    ensures |bytes| == 500 && bytes[0] == 1 && bytes[355] != 1 ==>
              Parse(bytes) == Err(BadTag(UnsupportedTagVersion(bytes[355])))
    ensures |bytes| == 500 && bytes[0] == 1 && bytes[355] == 1 ==>
              Parse(bytes).Ok? && Parse(bytes).value.token == bytes[1..355] && Parse(bytes).value.tag == bytes[355..]
  {
    if |bytes| == 500 {
      assert bytes[1..][354..] == bytes[355..] && bytes[1..][..354] == bytes[1..355];
    }
  }

  /** Pairing a token with a tag keeps both, and refuses a token of another length by naming it. */
  lemma NewEnvelopeMeans(token: seq<byte>, tag: Tag)
    ensures |token| == 354 ==> NewEnvelope(token, tag) == Ok(Envelope(token, tag))
    ensures |token| != 354 ==> NewEnvelope(token, tag) == Err(TokenLength(|token|))
  {
  }
}
