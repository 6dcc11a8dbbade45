/**
 * Big-endian byte strings and the two ways java.math.BigInteger reads and
 * writes them: `new BigInteger(1, bytes)` (an unsigned magnitude) and
 * `toByteArray()` (the minimal two's-complement form with a sign bit).
 */
module ByteInt {

  type byte = b: int | 0 <= b < 256

  function Pow2(k: nat): (p: nat)
    ensures p >= 1
  {
    if k == 0 then 1 else 2 * Pow2(k - 1)
  }

  function Pow256(k: nat): (p: nat)
    ensures p >= 1
  {
    if k == 0 then 1 else 256 * Pow256(k - 1)
  }

  /** The value of `b` read as an unsigned big-endian integer (Horner's rule). */
  function UnsignedValue(b: seq<byte>): nat
  {
    if b == [] then 0 else UnsignedValue(b[..|b| - 1]) * 256 + b[|b| - 1]
  }

  /** Reference definition: the sum of b[i] * 256^(|b| - 1 - i). */
  function WeightedSum(b: seq<byte>): nat
  {
    if b == [] then 0 else b[0] * Pow256(|b| - 1) + WeightedSum(b[1..])
  }

  /** The value of `b` read as a big-endian two's-complement integer. */
  function SignedValue(b: seq<byte>): int
  {
    if |b| > 0 && b[0] >= 128 then UnsignedValue(b) - Pow256(|b|) else UnsignedValue(b)
  }

  /** The low `k` bytes of `v`, most significant first. */
  function BigEndian(v: nat, k: nat): (r: seq<byte>)
    ensures |r| == k
  {
    if k == 0 then [] else BigEndian(v / 256, k - 1) + [v % 256]
  }

  /** BigInteger.bitLength() of a non-negative value: the number of significant bits. */
  function BitLength(v: nat): nat
  {
    if v == 0 then 0 else 1 + BitLength(v / 2)
  }

  /** BigInteger.toByteArray() of a non-negative value. */
  function ToByteArray(v: nat): (r: seq<byte>)
    ensures |r| == BitLength(v) / 8 + 1
    ensures UnsignedValue(r) == v && SignedValue(r) == v
    ensures r[0] < 128
    ensures |r| == 1 || r[0] != 0 || r[1] >= 128
  {
    var r := BigEndian(v, BitLength(v) / 8 + 1);
    ToByteArrayFacts(v);
    r
  }

  /**
   * The unsigned magnitude of `v`: toByteArray() with its sign byte removed
   * when that byte is a spurious 0x00 (the intended encoding of JWK `n`/`e`).
   */
  function MagnitudeBytes(v: nat): (r: seq<byte>)
    ensures UnsignedValue(r) == v
    ensures v > 0 ==> r[0] != 0 && |r| == (BitLength(v) + 7) / 8
    ensures v == 0 ==> r == [0]
  {
    var t := ToByteArray(v);
    MagnitudeFacts(v);
    if |t| > 1 && t[0] == 0 then
      UnsignedHead(t);
      t[1..]
    else
      t
  }

  // ---------------------------------------------------------------------
  // Lemmas about the unsigned reading
  // ---------------------------------------------------------------------

  lemma {:induction false} WeightedSumSnoc(s: seq<byte>, x: byte)
    ensures WeightedSum(s + [x]) == WeightedSum(s) * 256 + x
    decreases |s|
  {
    if s == [] {
      assert s + [x] == [x];
    } else {
      assert (s + [x])[1..] == s[1..] + [x];
      WeightedSumSnoc(s[1..], x);
      calc {
        WeightedSum(s + [x]);
        s[0] * Pow256(|s|) + WeightedSum(s[1..] + [x]);
        s[0] * (256 * Pow256(|s| - 1)) + WeightedSum(s[1..]) * 256 + x;
        { assert s[0] * (256 * Pow256(|s| - 1)) == (s[0] * Pow256(|s| - 1)) * 256; }
        (s[0] * Pow256(|s| - 1) + WeightedSum(s[1..])) * 256 + x;
      }
    }
  }

  /** new BigInteger(1, b) is the positional sum of the bytes of b. */
  lemma {:induction false} UnsignedIsWeightedSum(b: seq<byte>)
    ensures UnsignedValue(b) == WeightedSum(b)
    decreases |b|
  {
    if b != [] {
      var init := b[..|b| - 1];
      UnsignedIsWeightedSum(init);
      WeightedSumSnoc(init, b[|b| - 1]);
      assert init + [b[|b| - 1]] == b;
    }
  }

  /** Peeling off the most significant byte. */
  lemma UnsignedHead(b: seq<byte>)
    requires |b| > 0
    ensures UnsignedValue(b) == b[0] * Pow256(|b| - 1) + UnsignedValue(b[1..])
  {
    UnsignedIsWeightedSum(b);
    UnsignedIsWeightedSum(b[1..]);
  }

  /** Leading 0x00 bytes do not change the unsigned value. */
  lemma UnsignedLeadingZeros(z: seq<byte>, b: seq<byte>)
    requires forall i | 0 <= i < |z| :: z[i] == 0
    ensures UnsignedValue(z + b) == UnsignedValue(b)
    decreases |z|
  {
    if z != [] {
      var zb := z + b;
      UnsignedHead(zb);
      assert zb[0] == 0;
      assert zb[1..] == z[1..] + b;
      assert forall i | 0 <= i < |z[1..]| :: z[1..][i] == z[i + 1];
      UnsignedLeadingZeros(z[1..], b);
      assert UnsignedValue(zb) == 0 * Pow256(|zb| - 1) + UnsignedValue(z[1..] + b);
    } else {
      assert z + b == b;
    }
  }

  /** An unsigned reading is below 256^|b|, and at least b[0] * 256^(|b|-1): a high first bit is magnitude, not sign. */
  lemma {:induction false} UnsignedBounds(b: seq<byte>)
    ensures UnsignedValue(b) < Pow256(|b|)
    ensures |b| > 0 ==> b[0] * Pow256(|b| - 1) <= UnsignedValue(b)
    decreases |b|
  {
    if b != [] {
      UnsignedBounds(b[..|b| - 1]);
      UnsignedHead(b);
      assert UnsignedValue(b[..|b| - 1]) + 1 <= Pow256(|b| - 1);
      assert UnsignedValue(b) <= (Pow256(|b| - 1) - 1) * 256 + 255;
    }
  }

  /** When the first byte is below 0x80 the signed and unsigned readings agree; otherwise they differ by 256^|b|. */
  lemma SignedUnsigned(b: seq<byte>)
    requires |b| > 0
    ensures b[0] < 128 ==> SignedValue(b) == UnsignedValue(b)
    ensures b[0] >= 128 ==> SignedValue(b) < 0 <= UnsignedValue(b) && UnsignedValue(b) == SignedValue(b) + Pow256(|b|)
  {
    if b[0] >= 128 {
      UnsignedBounds(b);
    }
  }

  // ---------------------------------------------------------------------
  // Lemmas about BigEndian, BitLength and powers
  // ---------------------------------------------------------------------

  lemma {:induction false} BigEndianValue(v: nat, k: nat)
    requires v < Pow256(k)
    ensures UnsignedValue(BigEndian(v, k)) == v
    decreases k
  {
    if k > 0 {
      var r := BigEndian(v, k);
      assert r[..k - 1] == BigEndian(v / 256, k - 1);
      assert v / 256 < Pow256(k - 1);
      BigEndianValue(v / 256, k - 1);
    }
  }

  lemma {:induction false} Pow2Add(a: nat, b: nat)
    ensures Pow2(a + b) == Pow2(a) * Pow2(b)
    decreases a
  {
    if a > 0 {
      Pow2Add(a - 1, b);
    }
  }

  lemma {:induction false} Pow256IsPow2(k: nat)
    ensures Pow256(k) == Pow2(8 * k)
    decreases k
  {
    if k > 0 {
      Pow256IsPow2(k - 1);
      Pow2Add(8, 8 * (k - 1));
      assert Pow2(8) == 256;
    }
  }

  lemma {:induction false} Pow2Monotone(a: nat, b: nat)
    requires a <= b
    ensures Pow2(a) <= Pow2(b)
    decreases b
  {
    if a < b {
      Pow2Monotone(a, b - 1);
    }
  }

  lemma {:induction false} BitLengthBounds(v: nat)
    ensures v < Pow2(BitLength(v))
    ensures v > 0 ==> Pow2(BitLength(v) - 1) <= v
    decreases v
  {
    if v > 0 {
      BitLengthBounds(v / 2);
    }
  }

  /** BitLength is the unique k with 2^(k-1) <= v < 2^k. */
  lemma {:induction false} BitLengthUnique(v: nat, k: nat)
    requires k >= 1 && Pow2(k - 1) <= v < Pow2(k)
    ensures BitLength(v) == k
    decreases k
  {
    if k > 1 {
      BitLengthUnique(v / 2, k - 1);
    }
  }

  lemma MulBelow(x: nat, p: nat, c: nat)
    requires p > 0 && x * p < c * p
    ensures x < c
  {
  }

  /** 2^(8 len - 1) is 128 * 256^(len - 1). */
  lemma Pow2SignBit(len: nat)
    requires len >= 1
    ensures Pow2(8 * len - 1) == 128 * Pow256(len - 1)
  {
    Pow2Add(7, 8 * (len - 1));
    Pow256IsPow2(len - 1);
    assert Pow2(7) == 128;
  }

  /** A value below 128 * 256^(k-1) written in k bytes has a first byte below 0x80. */
  lemma TopByteBelow(r: seq<byte>, c: nat)
    requires |r| >= 1 && c <= 256
    requires UnsignedValue(r) < c * Pow256(|r| - 1)
    ensures r[0] < c
  {
    UnsignedBounds(r);
    MulBelow(r[0], Pow256(|r| - 1), c);
  }

  /** A value of at least 256^(k-1) written in k bytes has a non-zero first byte. */
  lemma TopByteAbove(r: seq<byte>)
    requires |r| >= 1
    requires Pow256(|r| - 1) <= UnsignedValue(r)
    ensures r[0] != 0
  {
    UnsignedHead(r);
    UnsignedBounds(r[1..]);
  }

  lemma ToByteArrayValue(v: nat)
    ensures var r := BigEndian(v, BitLength(v) / 8 + 1);
      UnsignedValue(r) == v && r[0] < 128
  {
    var bl := BitLength(v);
    var len := bl / 8 + 1;
    BitLengthBounds(v);
    Pow2Monotone(bl, 8 * len - 1);
    Pow2SignBit(len);
    assert Pow256(len) == 256 * Pow256(len - 1);
    BigEndianValue(v, len);
    TopByteBelow(BigEndian(v, len), 128);
  }

  /** Conversely, a first byte below c bounds the whole value by c * 256^(k-1). */
  lemma ValueBelowTop(r: seq<byte>, c: nat)
    requires |r| >= 1 && r[0] < c
    ensures UnsignedValue(r) < c * Pow256(|r| - 1)
  {
    var p := Pow256(|r| - 1);
    UnsignedHead(r);
    UnsignedBounds(r[1..]);
    MulMono(r[0], c - 1, p);
    assert (c - 1) * p + p == c * p;
  }

  lemma MulMono(a: nat, b: nat, p: nat)
    requires a <= b
    ensures a * p <= b * p
  {
  }

  /** A value of at least c * 256^(k-1) written in k bytes has a first byte of at least c. */
  lemma TopByteAtLeast(r: seq<byte>, c: nat)
    requires |r| >= 1
    requires c * Pow256(|r| - 1) <= UnsignedValue(r)
    ensures r[0] >= c
  {
    var p := Pow256(|r| - 1);
    var up: nat := r[0] as int + 1;
    UnsignedHead(r);
    UnsignedBounds(r[1..]);
    assert up * p == r[0] * p + p;
    MulBelow(c, p, up);
  }

  lemma ToByteArrayMinimal(v: nat)
    ensures var r := BigEndian(v, BitLength(v) / 8 + 1);
      |r| == 1 || r[0] != 0 || r[1] >= 128
  {
    var bl := BitLength(v);
    var len := bl / 8 + 1;
    var r := BigEndian(v, len);
    if len > 1 && r[0] == 0 {
      var tail := r[1..];
      assert UnsignedValue(tail) == v by {
        ToByteArrayValue(v);
        UnsignedHead(r);
      }
      assert 128 * Pow256(len - 2) <= v by {
        // v >= 2^(bl - 1) >= 2^(8 (len - 1) - 1) = 128 * 256^(len - 2)
        Pow2SignBit(len - 1);
        BitLengthBounds(v);
        Pow2Monotone(8 * (len - 1) - 1, bl - 1);
      }
      TopByteAtLeast(tail, 128);
    }
  }

  lemma ToByteArrayFacts(v: nat)
    ensures var r := BigEndian(v, BitLength(v) / 8 + 1);
      && UnsignedValue(r) == v && SignedValue(r) == v && r[0] < 128
      && (|r| == 1 || r[0] != 0 || r[1] >= 128)
  {
    ToByteArrayValue(v);
    ToByteArrayMinimal(v);
  }

  lemma MagnitudeFacts(v: nat)
    ensures var t := ToByteArray(v);
      && (v == 0 ==> t == [0])
      && (v > 0 && t[0] != 0 ==> |t| == (BitLength(v) + 7) / 8)
      && (v > 0 && t[0] == 0 ==> |t| > 1 && |t| - 1 == (BitLength(v) + 7) / 8)
  {
    var t := ToByteArray(v);
    var bl := BitLength(v);
    var len := bl / 8 + 1;
    if v == 0 {
      assert BitLength(0) == 0;
      assert t == BigEndian(0, 1) == [0];
    } else {
      BitLengthBounds(v);
      Pow256IsPow2(len - 1);
      if bl % 8 == 0 {
        // v < 2^bl = 256^(len - 1): the top byte is the sign byte 0x00
        assert bl == 8 * (len - 1);
        TopByteBelow(t, 1);
      } else {
        // v >= 2^(bl - 1) >= 256^(len - 1): the top byte is significant
        Pow2Monotone(8 * (len - 1), bl - 1);
        TopByteAbove(t);
      }
    }
  }
}
