/** Byte buffers: `copy_from_slice` into a fixed array, and big-endian u64. */
module Bytes {
  import opened Machine
  import opened Digits

  method CopyInto(a: array<byte>, at: nat, src: seq<byte>)
    requires at + |src| <= a.Length
    modifies a
    ensures a[..] == old(a[..at]) + src + old(a[at + |src|..])
    ensures a[..at + |src|] == old(a[..at]) + src
  {
    for i := 0 to |src|
      invariant a[..] == old(a[..at]) + src[..i] + old(a[at + i..])
    {
      a[at + i] := src[i];
    }
  }

  /** The last `len` bytes of `n`, most significant first. */
  function BigEndian(n: nat, len: nat): (r: seq<byte>)
    ensures |r| == len
  {
    if len == 0 then [] else BigEndian(n / 256, len - 1) + [n % 256]
  }

  /** On numbers that fit, `to_be_bytes` and `from_be_bytes` are inverse. */
  lemma {:induction false} BigEndianInverse(n: nat, b: seq<byte>)
    requires n < Pow(256, |b|)
    ensures BigEndian(n, |b|) == b <==> Value(b, 256) == n
  {
    if b == [] {
    } else {
      var init, last := b[..|b| - 1], b[|b| - 1];
      assert b == init + [last];
      BigEndianInverse(n / 256, init);
    }
  }

  lemma EightBytes()
    ensures Pow(256, 8) == U64_MAX + 1
  {
    assert Pow(256, 1) == 256;
    PowAdd(256, 1, 1);
    PowAdd(256, 2, 2);
    PowAdd(256, 4, 4);
  }
}
