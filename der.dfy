/**
 * The DER encoding of an RSA public key as X.509 SubjectPublicKeyInfo
 * (section 4.1 of RFC 5280, with the rsaEncryption identifier and the
 * RSAPublicKey structure of section 2.3.1 of RFC 3279), following the DER
 * rules of sections 8.1.3, 8.3 and 10.1 of ITU-T X.690. This is what
 * `PublicKey.getEncoded()` returns for the key built from (n, e).
 *
 * A reference decoder reads the structure back, so the encoder is checked
 * against an independent definition by a round-trip lemma.
 */
module Der {
  import opened Wrappers
  import opened ByteInt

  const TagInteger: byte := 0x02
  const TagBitString: byte := 0x03
  const TagSequence: byte := 0x30

  /**
   * AlgorithmIdentifier ::= SEQUENCE { rsaEncryption (1.2.840.113549.1.1.1), NULL },
   * already DER-encoded.
   */
  const RsaAlgorithmIdentifier: seq<byte> :=
    [0x30, 0x0D, 0x06, 0x09, 0x2A, 0x86, 0x48, 0x86, 0xF7, 0x0D, 0x01, 0x01, 0x01, 0x05, 0x00]

  /** The number of bytes needed to write L in base 256 without leading zeros. */
  function ByteCount(len: nat): nat
  {
    if len == 0 then 0 else 1 + ByteCount(len / 256)
  }

  /** The long form can carry at most 126 length octets (X.690 8.1.3.5 reserves 0xFF). */
  predicate LengthEncodable(len: nat)
  {
    ByteCount(len) <= 126
  }

  /** The definite length octets: short form below 128, otherwise the minimal long form. */
  function LengthOctets(len: nat): seq<byte>
    requires LengthEncodable(len)
  {
    if len < 128 then [len] else [0x80 + ByteCount(len)] + BigEndian(len, ByteCount(len))
  }

  /** A tag-length-value triple. */
  function Tlv(tag: byte, content: seq<byte>): seq<byte>
    requires LengthEncodable(|content|)
  {
    [tag] + LengthOctets(|content|) + content
  }

  /** An INTEGER: the content is the minimal two's-complement form (X.690 8.3.2). */
  function IntegerTlv(v: nat): seq<byte>
    requires LengthEncodable(|ToByteArray(v)|)
  {
    Tlv(TagInteger, ToByteArray(v))
  }

  /**
   * SubjectPublicKeyInfo ::= SEQUENCE { AlgorithmIdentifier,
   *   BIT STRING (0 unused bits) wrapping RSAPublicKey ::= SEQUENCE { n INTEGER, e INTEGER } }.
   * None when some length would need more length octets than DER allows.
   */
  function SpkiDer(n: nat, e: nat): Option<seq<byte>>
  {
    var nb, eb := ToByteArray(n), ToByteArray(e);
    if !LengthEncodable(|nb|) || !LengthEncodable(|eb|) then None
    else
      var key := IntegerTlv(n) + IntegerTlv(e);
      if !LengthEncodable(|key|) then None
      else
        var bits := [0] + Tlv(TagSequence, key);
        if !LengthEncodable(|bits|) then None
        else
          var body := RsaAlgorithmIdentifier + Tlv(TagBitString, bits);
          if !LengthEncodable(|body|) then None
          else Some(Tlv(TagSequence, body))
  }

  /** A tag followed by the two-octet long form of a length below 65536. */
  function LongHeader(tag: byte, len: nat): (h: seq<byte>)
    requires len < 65536
    ensures |h| == 4
  {
    [tag, 0x82, len / 256, len % 256]
  }

  /** Contents of 256 to 65535 bytes take the two-octet long form of the length. */
  lemma LongFormTlv(tag: byte, content: seq<byte>)
    requires 256 <= |content| < 65536
    ensures LengthEncodable(|content|)
    ensures Tlv(tag, content) == LongHeader(tag, |content|) + content
  {
    var len := |content|;
    assert ByteCount(len) == 2 by {
      assert ByteCount(len / 256 / 256) == 0;
    }
    assert BigEndian(len, 2) == [len / 256, len % 256] by {
      assert BigEndian(len / 256, 1) == BigEndian(len / 256 / 256, 0) + [len / 256 % 256];
    }
  }

  /**
   * For an RSAPublicKey content of k bytes, 256 <= k <= 65511 (moduli of
   * roughly 2000 bits and more), every enclosing length takes the two-octet
   * long form: the encoding is the SEQUENCE header, the fixed rsaEncryption
   * AlgorithmIdentifier, the BIT STRING header with no unused bits, the
   * RSAPublicKey SEQUENCE header, then the two INTEGERs: 28 bytes more than
   * the key content.
   */
  lemma SpkiDerLongForm(n: nat, e: nat)
    requires LengthEncodable(|ToByteArray(n)|) && LengthEncodable(|ToByteArray(e)|)
    requires 256 <= |IntegerTlv(n) + IntegerTlv(e)| <= 65511
    ensures var k := |IntegerTlv(n) + IntegerTlv(e)|;
      && SpkiDer(n, e) == Some(LongHeader(TagSequence, k + 24) + RsaAlgorithmIdentifier
           + LongHeader(TagBitString, k + 5) + [0] + LongHeader(TagSequence, k) + (IntegerTlv(n) + IntegerTlv(e)))
      && |SpkiDer(n, e).value| == k + 28
  {
    var key := IntegerTlv(n) + IntegerTlv(e);
    var k := |key|;
    LongFormTlv(TagSequence, key);
    var inner := LongHeader(TagSequence, k) + key;
    var bits := [0] + inner;
    assert |bits| == k + 5;
    LongFormTlv(TagBitString, bits);
    var body := RsaAlgorithmIdentifier + (LongHeader(TagBitString, k + 5) + bits);
    assert |body| == k + 24;
    LongFormTlv(TagSequence, body);
    assert SpkiDer(n, e) == Some(LongHeader(TagSequence, k + 24) + body);
    assert LongHeader(TagSequence, k + 24) + body == LongHeader(TagSequence, k + 24) + RsaAlgorithmIdentifier
      + LongHeader(TagBitString, k + 5) + [0] + LongHeader(TagSequence, k) + key;
  }

  // ---------------------------------------------------------------------
  // Reference decoder
  // ---------------------------------------------------------------------

  /** Reads definite length octets, returning the length and the remaining bytes. */
  function ReadLength(s: seq<byte>): Option<(nat, seq<byte>)>
  {
    if |s| == 0 then None
    else if s[0] < 128 then Some((s[0], s[1..]))
    else
      var k := s[0] - 128;
      if k == 0 || k > 126 || |s| < 1 + k then None
      else Some((UnsignedValue(s[1..1 + k]), s[1 + k..]))
  }

  /** Reads one TLV with the expected tag, returning its content and the remaining bytes. */
  function ReadTlv(s: seq<byte>, tag: byte): Option<(seq<byte>, seq<byte>)>
  {
    if |s| == 0 || s[0] != tag then None
    else match ReadLength(s[1..])
      case None => None
      case Some((len, rest)) =>
        if len > |rest| then None else Some((rest[..len], rest[len..]))
  }

  /** Reads RSAPublicKey ::= SEQUENCE { n INTEGER, e INTEGER }, which must fill s exactly. */
  function ParseRsaPublicKey(s: seq<byte>): Option<(int, int)>
  {
    var (key, rest) :- ReadTlv(s, TagSequence);
    var (nb, afterN) :- ReadTlv(key, TagInteger);
    var (eb, afterE) :- ReadTlv(afterN, TagInteger);
    if rest != [] || afterE != [] then None
    else Some((SignedValue(nb), SignedValue(eb)))
  }

  /** Reads an RSA SubjectPublicKeyInfo, which must fill der exactly, back into (modulus, exponent). */
  function ParseRsaSpki(der: seq<byte>): Option<(int, int)>
  {
    var (body, rest) :- ReadTlv(der, TagSequence);
    var a := |RsaAlgorithmIdentifier|;
    if rest != [] || |body| < a || body[..a] != RsaAlgorithmIdentifier then None
    else
      var (bits, afterBits) :- ReadTlv(body[a..], TagBitString);
      if afterBits != [] || |bits| == 0 || bits[0] != 0 then None
      else ParseRsaPublicKey(bits[1..])
  }

  // ---------------------------------------------------------------------
  // Properties
  // ---------------------------------------------------------------------

  lemma {:induction false} ByteCountBound(len: nat)
    ensures len < Pow256(ByteCount(len))
    ensures len > 0 ==> ByteCount(len) >= 1
    decreases len
  {
    if len > 0 {
      ByteCountBound(len / 256);
    }
  }

  /** Reading the length octets gives back the length and leaves what followed. */
  lemma LengthRoundTrip(len: nat, rest: seq<byte>)
    requires LengthEncodable(len)
    ensures ReadLength(LengthOctets(len) + rest) == Some((len, rest))
  {
    var s := LengthOctets(len) + rest;
    if len >= 128 {
      var k := ByteCount(len);
      ByteCountBound(len);
      BigEndianValue(len, k);
      assert s[1..1 + k] == BigEndian(len, k);
      assert s[1 + k..] == rest;
    } else {
      assert s[1..] == rest;
    }
  }

  lemma TlvRoundTrip(tag: byte, content: seq<byte>, rest: seq<byte>)
    requires LengthEncodable(|content|)
    ensures ReadTlv(Tlv(tag, content) + rest, tag) == Some((content, rest))
  {
    var lo := LengthOctets(|content|);
    var s := Tlv(tag, content) + rest;
    assert s[1..] == lo + (content + rest);
    LengthRoundTrip(|content|, content + rest);
    assert (content + rest)[..|content|] == content;
    assert (content + rest)[|content|..] == rest;
  }

  lemma RsaPublicKeyRoundTrip(n: nat, e: nat)
    requires LengthEncodable(|ToByteArray(n)|) && LengthEncodable(|ToByteArray(e)|)
    requires LengthEncodable(|IntegerTlv(n) + IntegerTlv(e)|)
    ensures ParseRsaPublicKey(Tlv(TagSequence, IntegerTlv(n) + IntegerTlv(e))) == Some((n, e))
  {
    var nb, eb := ToByteArray(n), ToByteArray(e);
    var key := IntegerTlv(n) + IntegerTlv(e);
    TlvRoundTrip(TagSequence, key, []);
    assert Tlv(TagSequence, key) + [] == Tlv(TagSequence, key);
    TlvRoundTrip(TagInteger, nb, IntegerTlv(e));
    TlvRoundTrip(TagInteger, eb, []);
    assert IntegerTlv(e) + [] == IntegerTlv(e);
  }

  /** Every encoding the encoder produces reads back as the modulus and exponent it was built from. */
  lemma SpkiRoundTrip(n: nat, e: nat)
    requires SpkiDer(n, e).Some?
    ensures ParseRsaSpki(SpkiDer(n, e).value) == Some((n, e))
  {
    var key := IntegerTlv(n) + IntegerTlv(e);
    var inner := Tlv(TagSequence, key);
    var bits := [0] + inner;
    var bitString := Tlv(TagBitString, bits);
    var body := RsaAlgorithmIdentifier + bitString;
    var der := Tlv(TagSequence, body);
    assert SpkiDer(n, e).value == der;
    var a := |RsaAlgorithmIdentifier|;
    assert ReadTlv(der, TagSequence) == Some((body, [])) by {
      TlvRoundTrip(TagSequence, body, []);
      assert der + [] == der;
    }
    assert body[..a] == RsaAlgorithmIdentifier;
    assert ReadTlv(body[a..], TagBitString) == Some((bits, [])) by {
      assert body[a..] == bitString + [];
      TlvRoundTrip(TagBitString, bits, []);
    }
    assert bits[1..] == inner;
    RsaPublicKeyRoundTrip(n, e);
  }
}
