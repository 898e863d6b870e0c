/**
  HMAC-SHA256 (RFC 2104 section 2, with the 64-byte block of SHA-256).

  The key is normalised into a zero-filled block buffer by an in-place
  element-wise sum, the two pads are made by an in-place element-wise XOR,
  and the MAC is H(outer pad ++ H(inner pad ++ message)). SHA-256 itself is
  a parameter: any function whose every digest is 32 bytes.
*/
module Hmac {

  /** 512 bits. */
  const BlockSize: nat := 64
  /** The length of a SHA-256 digest. */
  const DigestSize: nat := 32
  const InnerPadByte: bv8 := 0x36
  const OuterPadByte: bv8 := 0x5c

  /** SHA-256 as the model sees it: a function whose every result is 32 bytes long. */
  type Hash = h: seq<bv8> -> seq<bv8> | forall m :: |h(m)| == DigestSize
    witness (m: seq<bv8>) => seq(DigestSize, _ => 0 as bv8)

  function Zeros(n: nat): (z: seq<bv8>)
    ensures |z| == n
    ensures forall i :: 0 <= i < n ==> z[i] == 0
  {
    seq(n, _ => 0)
  }

  /** A block filled with one byte, as `vec![c; BLOCK_SIZE]`. */
  function Fill(c: bv8): (f: seq<bv8>)
    ensures |f| == BlockSize
    ensures forall i :: 0 <= i < BlockSize ==> f[i] == c
  {
    seq(BlockSize, _ => c)
  }

  // ---------------------------------------------------------------------
  // The reference construction of RFC 2104 section 2.
  // ---------------------------------------------------------------------

  /** K as used by RFC 2104: a key longer than a block is first hashed, then zeros are appended to a full block. */
  function BlockKey(H: Hash, key: seq<bv8>): (k: seq<bv8>)
    ensures |k| == BlockSize
  {
    var k0 := if |key| > BlockSize then H(key) else key;
    k0 + Zeros(BlockSize - |k0|)
  }

  /** K XOR (c repeated): every byte of the key combined with the pad byte. */
  function Pad(k: seq<bv8>, c: bv8): (p: seq<bv8>)
    ensures |p| == |k|
  {
    seq(|k|, i requires 0 <= i < |k| => k[i] ^ c)
  }

  /** HMAC(K, text) = H(K XOR opad, H(K XOR ipad, text)). */
  function Hmac(H: Hash, key: seq<bv8>, message: seq<bv8>): (mac: seq<bv8>)
    ensures |mac| == DigestSize
  {
    var k := BlockKey(H, key);
    H(Pad(k, OuterPadByte) + H(Pad(k, InnerPadByte) + message))
  }

  // ---------------------------------------------------------------------
  // The in-place helpers `sum` and `xor`.
  // ---------------------------------------------------------------------

  /** `a` after `sum(a, b)`: each position below min(|a|, |b|) gets a[i] + b[i] (u8 addition); the rest of `a` stays. */
  function Summed(a: seq<bv8>, b: seq<bv8>): (r: seq<bv8>)
    ensures |r| == |a|
  {
    seq(|a|, i requires 0 <= i < |a| => if i < |b| then a[i] + b[i] else a[i])
  }

  /** `a` after `xor(a, b)`: each position below min(|a|, |b|) gets a[i] ^ b[i]; the rest of `a` stays. */
  function Xored(a: seq<bv8>, b: seq<bv8>): (r: seq<bv8>)
    ensures |r| == |a|
  {
    seq(|a|, i requires 0 <= i < |a| => if i < |b| then a[i] ^ b[i] else a[i])
  }

  /** Element-wise sum into `a`, over the positions both buffers have. */
  method Sum(a: array<bv8>, b: seq<bv8>)
    modifies a
    ensures a[..] == Summed(old(a[..]), b)
  {
    var n := if a.Length < |b| then a.Length else |b|;
    for i := 0 to n
      invariant forall j :: 0 <= j < i ==> a[j] == old(a[j]) + b[j]
      invariant forall j :: i <= j < a.Length ==> a[j] == old(a[j])
    {
      a[i] := a[i] + b[i];
    }
    assert forall j :: 0 <= j < a.Length ==> a[..][j] == Summed(old(a[..]), b)[j];
  }

  /** Element-wise XOR into `a`, over the positions both buffers have. */
  method Xor(a: array<bv8>, b: seq<bv8>)
    modifies a
    ensures a[..] == Xored(old(a[..]), b)
  {
    var n := if a.Length < |b| then a.Length else |b|;
    for i := 0 to n
      invariant forall j :: 0 <= j < i ==> a[j] == old(a[j]) ^ b[j]
      invariant forall j :: i <= j < a.Length ==> a[j] == old(a[j])
    {
      a[i] := a[i] ^ b[i];
    }
    assert forall j :: 0 <= j < a.Length ==> a[..][j] == Xored(old(a[..]), b)[j];
  }

  /** A fresh copy of a buffer (`clone`). */
  method Clone(a: array<bv8>) returns (c: array<bv8>)
    ensures fresh(c) && c[..] == a[..]
  {
    var s := a[..];
    c := new bv8[|s|](i requires 0 <= i < |s| => s[i]);
  }

  /** `hmac_sha256(key, message)`. */
  method HmacSha256(H: Hash, key: seq<bv8>, message: seq<bv8>) returns (mac: seq<bv8>)
    ensures |mac| == DigestSize
    ensures mac == Hmac(H, key, message)
  {
    // Normalise the key.
    var keyNorm := new bv8[BlockSize](_ => 0);
    var source := if |key| > BlockSize then H(key) else key;
    Sum(keyNorm, source);
    SumIntoZeros(source);
    assert keyNorm[..] == BlockKey(H, key);

    // The inner and outer padding.
    var outer := Clone(keyNorm);
    Xor(outer, Fill(OuterPadByte));
    var inner := Clone(keyNorm);
    Xor(inner, Fill(InnerPadByte));
    XoredFillIsPad(keyNorm[..], OuterPadByte);
    XoredFillIsPad(keyNorm[..], InnerPadByte);

    // The MAC.
    var innerDigest := H(inner[..] + message);
    mac := H(outer[..] + innerDigest);
  }

  // ---------------------------------------------------------------------
  // Properties.
  // ---------------------------------------------------------------------

  /** Summing into a zero-filled buffer never overflows a byte and copies `b` into the front of it. */
  lemma SumIntoZeros(b: seq<bv8>)
    requires |b| <= BlockSize
    ensures forall i :: 0 <= i < |b| ==> Zeros(BlockSize)[i] as int + b[i] as int <= 0xFF
    ensures Summed(Zeros(BlockSize), b) == b + Zeros(BlockSize - |b|)
  {
    var z := Zeros(BlockSize);
    assert forall i :: 0 <= i < BlockSize ==> Summed(z, b)[i] == (b + Zeros(BlockSize - |b|))[i];
  }

  /** XOR with a full block of `c` is the RFC's K XOR pad. */
  lemma XoredFillIsPad(k: seq<bv8>, c: bv8)
    requires |k| == BlockSize
    ensures Xored(k, Fill(c)) == Pad(k, c)
  {
    assert forall i :: 0 <= i < BlockSize ==> Xored(k, Fill(c))[i] == Pad(k, c)[i];
  }

  /** A key of at most one block is copied byte for byte to the front of the block; the rest is zero. */
  lemma ShortKeyCopied(H: Hash, key: seq<bv8>)
    requires |key| <= BlockSize
    ensures BlockKey(H, key)[..|key|] == key
    ensures forall i :: |key| <= i < BlockSize ==> BlockKey(H, key)[i] == 0
  {
  }

  /** A key longer than a block is replaced by its digest in bytes 0..32; bytes 32..64 are zero. */
  lemma LongKeyHashed(H: Hash, key: seq<bv8>)
    requires |key| > BlockSize
    ensures BlockKey(H, key)[..DigestSize] == H(key)
    ensures BlockKey(H, key)[DigestSize..] == Zeros(BlockSize - DigestSize)
  {
  }

  /** The pads are K XOR 0x36 and K XOR 0x5c, byte by byte. */
  lemma PadsAt(H: Hash, key: seq<bv8>, i: nat)
    requires i < BlockSize
    ensures Pad(BlockKey(H, key), InnerPadByte)[i] == BlockKey(H, key)[i] ^ 0x36
    ensures Pad(BlockKey(H, key), OuterPadByte)[i] == BlockKey(H, key)[i] ^ 0x5c
  {
  }

  /** Appending zero bytes to a key of at most one block does not change the MAC. */
  lemma TrailingZerosIrrelevant(H: Hash, key: seq<bv8>, n: nat, message: seq<bv8>)
    requires |key| + n <= BlockSize
    ensures Hmac(H, key + Zeros(n), message) == Hmac(H, key, message)
  {
    var k1, k2 := BlockKey(H, key + Zeros(n)), BlockKey(H, key);
    assert forall i :: 0 <= i < BlockSize ==> k1[i] == k2[i];
    assert k1 == k2;
  }

  /** A key longer than a block authenticates exactly like its digest. */
  lemma LongKeyAsDigest(H: Hash, key: seq<bv8>, message: seq<bv8>)
    requires |key| > BlockSize
    ensures Hmac(H, key, message) == Hmac(H, H(key), message)
  {
    assert BlockKey(H, key) == BlockKey(H, H(key));
  }

  /** Padding is undone by padding again with the same byte, so the pad determines the key. */
  lemma {:induction false} PadInvertible(k: seq<bv8>, c: bv8)
    ensures Pad(Pad(k, c), c) == k
  {
    assert forall i :: 0 <= i < |k| ==> Pad(Pad(k, c), c)[i] == k[i];
  }

  /** The inner and outer pads of the same key always differ. */
  lemma PadsDiffer(H: Hash, key: seq<bv8>)
    ensures Pad(BlockKey(H, key), InnerPadByte) != Pad(BlockKey(H, key), OuterPadByte)
  {
    var k := BlockKey(H, key);
    assert Pad(k, InnerPadByte)[0] != Pad(k, OuterPadByte)[0];
  }
}
