/**
 * The JWKS normaliser callout: for every RSA key of a JWK Set that carries an
 * x5c certificate chain, it writes `n` and `e` from the public key of the
 * first certificate, and leaves everything else as it was.
 */
module TransformJwks {
  import opened Wrappers
  import opened ByteInt
  import Base64
  import opened JsonValues
  import opened CalloutBase

  /** The public key of a parsed certificate: RSA with its modulus and exponent, or a key of another algorithm. */
  datatype CertKey = RsaKey(modulus: nat, exponent: nat) | OtherKey(algorithm: string)

  /**
   * What getting the "BC" X.509 factory and calling generateCertificate on the
   * bytes gives: a certificate with its public key, no certificate at all
   * (null, as for an empty stream), a CertificateException, or any other
   * exception those calls throw (a missing provider, say).
   */
  datatype ParseOutcome =
    | Parsed(key: CertKey)
    | NoCertificate
    | Rejected(cause: Exception)
    | Raised(thrown: Exception)

  /** CertificateFactory.getInstance("X.509", "BC").generateCertificate, supplied by the host. */
  type CertificateParser = seq<byte> -> ParseOutcome

  /** How a BigInteger is written into the `n` and `e` members. */
  type FieldEncoding = nat -> string

  /**
   * The collaborators the host supplies: JSON reading and writing, certificate
   * parsing, stack-trace text, and `readNull`, what transform throws on a null
   * document: whatever `fromJson(null, Map.class)` throws, or the
   * NullPointerException of `map.get("keys")` should it return null.
   */
  datatype Host = Host(readJson: JsonReader<Exception>, writeJson: JsonWriter, parse: CertificateParser,
                       stackTraceOf: Exception -> string, readNull: Exception)

  const GenericExceptionClass: string := "java.lang.Exception"
  /** The message prefix of a wrapped CertificateException, written in two pieces that are checked for line terminators one at a time. */
  const UnableToConvert: string := "Unable to convert " + "x5c value to X509Certificate: "
  const NullPointer: Exception := Exception(NullPointerClass, None, false)
  const ClassCast: Exception := Exception(ClassCastClass, None, false)
  const DefaultSource: string := "message.content"

  // ---------------------------------------------------------------------
  // x5cToCert and encode
  // ---------------------------------------------------------------------

  /** The exception x5cToCert throws when the certificate cannot be parsed: the cause's description after a fixed prefix. */
  function CertificateFailure(cause: Exception): (r: Exception)
    ensures r.className == GenericExceptionClass && r.message == Some(UnableToConvert + Describe(cause))
  {
    Exception(GenericExceptionClass, Some(UnableToConvert + Describe(cause)), false)
  }

  /**
   * x5cToCert: standard base64 decoding, then certificate parsing. The
   * certificate is None when the factory returns null; only a
   * CertificateException is wrapped, anything else propagates as it is.
   */
  function X5cToCert(x5c: string, parse: CertificateParser): Result<Option<CertKey>, Exception>
  {
    match Base64.Decode(x5c, Base64.Standard)
    case None => Failure(Exception(IllegalArgumentClass, None, false))
    case Some(der) =>
      match parse(der)
      case Parsed(key) => Success(Some(key))
      case NoCertificate => Success(None)
      case Rejected(cause) => Failure(CertificateFailure(cause))
      case Raised(thrown) => Failure(thrown)
  }

  /** A chain element written in standard base64 (padded or not) reaches the parser as exactly its DER bytes. */
  lemma X5cToCertOfEncoded(der: seq<byte>, padded: bool, parse: CertificateParser)
    ensures var r := X5cToCert(Base64.Encode(der, Base64.Standard, padded), parse);
      match parse(der)
      case Parsed(key) => r == Success(Some(key))
      case NoCertificate => r == Success(None)
      case Rejected(cause) => r == Failure(CertificateFailure(cause))
      case Raised(thrown) => r == Failure(thrown)
  {
    Base64.DecodeEncode(der, Base64.Standard, padded);
  }

  lemma PrefixOnOneLine()
    ensures OnOneLine(UnableToConvert)
  {
    var a, b := "Unable to convert ", "x5c value to X509Certificate: ";
    assert OnOneLine(a);
    assert OnOneLine(b);
    OneLineAppend(a, b);
  }

  /** A parse failure is recorded in `jwks_error` as the fixed prefix followed by the cause's description. */
  lemma CertificateFailureRecorded(vars: map<string, string>, cause: Exception)
    requires OnOneLine(Describe(cause))
    ensures WithExceptionVariables(vars, CertificateFailure(cause))[VarName("error")] == UnableToConvert + Describe(cause)
  {
    PrefixOnOneLine();
    OneLineAppend(UnableToConvert, Describe(cause));
    assert forall k | 0 <= k < |GenericExceptionClass| :: ClassNameChar(GenericExceptionClass[k]);
    MessageIsError(vars, CertificateFailure(cause));
  }

  /** encode as written: BigInteger.toByteArray(), then the standard alphabet with padding. */
  function Encode(v: nat): string
  {
    Base64.Encode(ToByteArray(v), Base64.Standard, true)
  }

  /**
   * The Base64urlUInt encoding a JWK `n` or `e` calls for (sections 2 and 6.3.1
   * of RFC 7518): the unsigned big-endian magnitude, base64url, no padding.
   */
  function EncodeUnsigned(v: nat): string
  {
    Base64.Encode(MagnitudeBytes(v), Base64.UrlSafe, false)
  }

  /** encode is padded standard base64 of the minimal two's-complement bytes of v, which read back as v. */
  lemma EncodeReadsBack(v: nat)
    ensures |Encode(v)| % 4 == 0
    ensures Base64.Decode(Encode(v), Base64.Standard).Some?
    ensures var b := Base64.Decode(Encode(v), Base64.Standard).value;
      && |b| == BitLength(v) / 8 + 1 && b[0] < 128
      && SignedValue(b) == v && UnsignedValue(b) == v
  {
    Base64.DecodeEncode(ToByteArray(v), Base64.Standard, true);
    Base64.PaddedLength(ToByteArray(v), Base64.Standard);
  }

  /**
   * The corrected encoding is unpadded base64url of the minimal magnitude: the
   * URL-safe decoder gives back bytes without a leading zero that read as v.
   */
  lemma EncodeUnsignedReadsBack(v: nat)
    ensures Base64.Decode(EncodeUnsigned(v), Base64.UrlSafe).Some?
    ensures var b := Base64.Decode(EncodeUnsigned(v), Base64.UrlSafe).value;
      && UnsignedValue(b) == v
      && (v > 0 ==> |b| == (BitLength(v) + 7) / 8 && b[0] != 0)
    ensures '=' !in EncodeUnsigned(v) && '+' !in EncodeUnsigned(v) && '/' !in EncodeUnsigned(v)
  {
    Base64.DecodeEncode(MagnitudeBytes(v), Base64.UrlSafe, false);
    UnpaddedUrlAlphabet(MagnitudeBytes(v));
  }

  /** Unpadded base64url text holds neither padding nor the two characters only the standard alphabet uses. */
  lemma UnpaddedUrlAlphabet(b: seq<byte>)
    ensures var t := Base64.Encode(b, Base64.UrlSafe, false);
      '=' !in t && '+' !in t && '/' !in t
  {
    var t := Base64.Encode(b, Base64.UrlSafe, false);
    var s := Base64.ToSextets(b);
    assert t == Base64.Chars(s, Base64.UrlSafe) + "";
    forall k | 0 <= k < |t| ensures t[k] != '=' && t[k] != '+' && t[k] != '/' {
      assert t[k] == Base64.CharOf(Base64.UrlSafe, s[k]);
    }
  }


  /**
   * As written, a 2048-bit modulus (the size in the test) is written as 257
   * bytes, a sign byte 0x00 first, in 344 padded characters; the intended
   * encoding is the 256-byte magnitude in 342 characters.
   */
  lemma EncodeOf2048BitModulus(v: nat)
    requires BitLength(v) == 2048
    ensures |ToByteArray(v)| == 257 && ToByteArray(v)[0] == 0
    ensures |Encode(v)| == 344 && Encode(v)[343] == '='
    ensures |MagnitudeBytes(v)| == 256 && |EncodeUnsigned(v)| == 342
  {
    var t := ToByteArray(v);
    assert v != 0;
    MagnitudeFacts(v);
    assert |t| == 257 && t[0] == 0;
    Base64.PaddedLength(t, Base64.Standard);
    assert Base64.Padding(257) == "=";
    var m := MagnitudeBytes(v);
    assert |m| == 256;
    assert |Base64.ToSextets(m)| == 342;
  }

  /** The smallest value with the high bit of its top byte set: 128 is written "AIA=" (two bytes) instead of "gA". */
  lemma EncodeKeepsSignByte()
    ensures Encode(128) == "AIA="
    ensures EncodeUnsigned(128) == "gA"
    ensures Base64.Decode(Encode(128), Base64.UrlSafe) == Some([0, 128])
    ensures Base64.Decode(EncodeUnsigned(128), Base64.UrlSafe) == Some([128])
  {
    BytesOf128();
    assert Encode(128) == Base64.Encode([0, 128], Base64.Standard, true);
    assert EncodeUnsigned(128) == Base64.Encode([128], Base64.UrlSafe, false);
    SignByteTexts();
    assert Base64.Decode(Encode(128), Base64.UrlSafe) == Base64.Decode(Base64.Encode([0, 128], Base64.UrlSafe, true), Base64.UrlSafe);
    Base64.DecodeEncode([0, 128], Base64.UrlSafe, true);
    Base64.DecodeEncode([128], Base64.UrlSafe, false);
  }

  lemma SignByteTexts()
    ensures Base64.Encode([0, 128], Base64.Standard, true) == "AIA="
    ensures Base64.Encode([0, 128], Base64.UrlSafe, true) == "AIA="
    ensures Base64.Encode([128], Base64.UrlSafe, false) == "gA"
  {
    SignedText(Base64.Standard);
    SignedText(Base64.UrlSafe);
    UnsignedText();
  }

  lemma SignedText(a: Base64.Alphabet)
    ensures Base64.Encode([0, 128], a, true) == "AIA="
  {
    Base64.EncodeTwo(0, 128, a, true);
    assert Base64.Group0(0) == 0 && Base64.Group1(0, 128) == 8 && Base64.Group2(128, 0) == 0;
    assert Base64.CharOf(a, 0) == 'A' && Base64.CharOf(a, 8) == 'I';
  }

  lemma UnsignedText()
    ensures Base64.Encode([128], Base64.UrlSafe, false) == "gA"
  {
    Base64.EncodeOne(128, Base64.UrlSafe, false);
    assert Base64.Group0(128) == 32 && Base64.Group1(128, 0) == 0;
    assert Base64.CharOf(Base64.UrlSafe, 32) == 'g' && Base64.CharOf(Base64.UrlSafe, 0) == 'A';
  }

  /** 128 needs a sign byte in two's complement and none as a magnitude. */
  lemma BytesOf128()
    ensures ToByteArray(128) == [0, 128] && MagnitudeBytes(128) == [128]
  {
    assert BitLength(128) == 8 by {
      assert BitLength(1) == 1;
      assert BitLength(2) == 2;
      assert BitLength(4) == 3;
      assert BitLength(8) == 4;
      assert BitLength(16) == 5;
      assert BitLength(32) == 6;
      assert BitLength(64) == 7;
    }
    assert ToByteArray(128) == [0, 128] by {
      assert BigEndian(0, 0) == [];
      assert BigEndian(0, 1) == [0];
      assert BigEndian(128, 2) == [0, 128];
    }
  }

  // ---------------------------------------------------------------------
  // One key of the list
  // ---------------------------------------------------------------------

  /**
   * The body of the loop of transform for one entry of `keys`: the entry with
   * `n` and `e` written from its first certificate when it is an RSA key with
   * a non-empty x5c chain, the entry unchanged otherwise, or the exception a
   * cast, the decoder or the parser throws.
   */
  function NormalizeKey(item: Json, parse: CertificateParser, enc: FieldEncoding): Result<Json, Exception>
  {
    match item
    case JNull => Failure(NullPointer)
    case JObject(fields) =>
      (match StringMember(fields, "kty")
       case NotAString => Failure(ClassCast)
       case NullString => Success(item)
       case Str(kty) =>
         if kty != "RSA" || "x5c" !in fields || fields["x5c"] == JNull then Success(item)
         else
           match fields["x5c"]
           case JArray(chain) =>
             if |chain| == 0 then Success(item)
             else
               (match chain[0]
                case JString(x5c) =>
                  (match X5cToCert(x5c, parse)
                   case Failure(x) => Failure(x)
                   case Success(None) => Failure(NullPointer)
                   case Success(Some(key)) =>
                     if key.OtherKey? then Failure(ClassCast)
                     else Success(JObject(fields["n" := JString(enc(key.modulus))]["e" := JString(enc(key.exponent))])))
                case JNull => Failure(NullPointer)
                case _ => Failure(ClassCast))
           case _ => Failure(ClassCast))
    case _ => Failure(ClassCast)
  }

  /** An entry whose `kty` is absent, null or a string other than exactly "RSA" is left as it is. */
  lemma NormalizeKeyLeavesNonRsa(fields: map<string, Json>, parse: CertificateParser, enc: FieldEncoding)
    requires "kty" !in fields || fields["kty"] == JNull || (fields["kty"].JString? && fields["kty"].s != "RSA")
    ensures NormalizeKey(JObject(fields), parse, enc) == Success(JObject(fields))
  {
  }

  /** An RSA entry whose x5c is absent, null or empty is left as it is. */
  lemma NormalizeKeyWithoutChain(fields: map<string, Json>, parse: CertificateParser, enc: FieldEncoding)
    requires "kty" in fields && fields["kty"] == JString("RSA")
    requires "x5c" !in fields || fields["x5c"] == JNull || fields["x5c"] == JArray([])
    ensures NormalizeKey(JObject(fields), parse, enc) == Success(JObject(fields))
  {
  }

  /**
   * An RSA entry with a chain succeeds exactly when the first element is a
   * string that decodes and parses to an RSA key, and then `n` and `e` hold
   * that key's modulus and exponent, whatever they held before.
   */
  lemma NormalizeKeyWritesFirstCertificate(fields: map<string, Json>, parse: CertificateParser, enc: FieldEncoding)
    requires "kty" in fields && fields["kty"] == JString("RSA")
    requires "x5c" in fields && fields["x5c"].JArray? && |fields["x5c"].items| > 0
    ensures var first := fields["x5c"].items[0];
      var r := NormalizeKey(JObject(fields), parse, enc);
      && (r.Success? <==> first.JString? && X5cToCert(first.s, parse).Success?
                          && X5cToCert(first.s, parse).value.Some? && X5cToCert(first.s, parse).value.value.RsaKey?)
      && (r.Success? ==>
            var key := X5cToCert(first.s, parse).value.value;
            && r.value.JObject?
            && r.value.fields["n"] == JString(enc(key.modulus))
            && r.value.fields["e"] == JString(enc(key.exponent)))
  {
  }

  /** Whatever happens to an entry, only its `n` and `e` members can change; none is removed. */
  lemma NormalizeKeyChangesOnlyModulusAndExponent(item: Json, parse: CertificateParser, enc: FieldEncoding)
    requires NormalizeKey(item, parse, enc).Success?
    ensures item.JObject? && NormalizeKey(item, parse, enc).value.JObject?
    ensures var f, g := item.fields, NormalizeKey(item, parse, enc).value.fields;
      && f.Keys <= g.Keys && g.Keys <= f.Keys + {"n", "e"}
      && forall k | k in f && k != "n" && k != "e" :: g[k] == f[k]
  {
  }

  /**
   * The failures of one entry: a null entry, a non-object, a non-string kty,
   * a chain element that does not decode or parse, no certificate, or a
   * non-RSA certificate key.
   */
  lemma NormalizeKeyFailures(item: Json, parse: CertificateParser, enc: FieldEncoding)
    ensures item == JNull ==> NormalizeKey(item, parse, enc) == Failure(NullPointer)
    ensures !item.JObject? && item != JNull ==> NormalizeKey(item, parse, enc) == Failure(ClassCast)
    ensures item.JObject? && StringMember(item.fields, "kty").NotAString? ==> NormalizeKey(item, parse, enc) == Failure(ClassCast)
    ensures item.JObject? && "kty" in item.fields && item.fields["kty"] == JString("RSA")
            && "x5c" in item.fields && item.fields["x5c"].JArray? && |item.fields["x5c"].items| > 0
            && item.fields["x5c"].items[0].JString? ==>
      var cert := X5cToCert(item.fields["x5c"].items[0].s, parse);
      && (cert.Failure? ==> NormalizeKey(item, parse, enc) == Failure(cert.error))
      && (cert.Success? && cert.value.None? ==> NormalizeKey(item, parse, enc) == Failure(NullPointer))
      && (cert.Success? && cert.value.Some? && cert.value.value.OtherKey? ==> NormalizeKey(item, parse, enc) == Failure(ClassCast))
  {
  }

  /**
   * An empty first chain element decodes to no bytes; when the factory then
   * returns no certificate, reading its public key throws a bare
   * NullPointerException, not the "Unable to convert" wrapper.
   */
  lemma EmptyCertificateIsNullPointer(fields: map<string, Json>, rest: seq<Json>, parse: CertificateParser, enc: FieldEncoding)
    requires "kty" in fields && fields["kty"] == JString("RSA")
    requires parse([]) == NoCertificate
    ensures NormalizeKey(JObject(fields["x5c" := JArray([JString("")] + rest)]), parse, enc) == Failure(NullPointer)
  {
    Base64.DecodeEncode([], Base64.Standard, false);
    assert Base64.Encode([], Base64.Standard, false) == "";
    var g := fields["x5c" := JArray([JString("")] + rest)];
    assert StringMember(g, "kty") == Str("RSA");
    assert g["x5c"].items[0] == JString("");
  }

  /** Certificates after the first cannot affect the outcome: two chains with the same head give the same result up to x5c. */
  lemma FirstCertificateOnly(fields: map<string, Json>, head: Json, rest1: seq<Json>, rest2: seq<Json>,
                             parse: CertificateParser, enc: FieldEncoding)
    ensures var a := NormalizeKey(JObject(fields["x5c" := JArray([head] + rest1)]), parse, enc);
      var b := NormalizeKey(JObject(fields["x5c" := JArray([head] + rest2)]), parse, enc);
      && (a.Success? <==> b.Success?)
      && (a.Failure? ==> a.error == b.error)
      && (a.Success? ==>
            (a.value.JObject? && b.value.JObject? && a.value.fields - {"x5c"} == b.value.fields - {"x5c"}))
  {
    var f1, f2 := fields["x5c" := JArray([head] + rest1)], fields["x5c" := JArray([head] + rest2)];
    assert ([head] + rest1)[0] == head && ([head] + rest2)[0] == head;
    assert f1 - {"x5c"} == f2 - {"x5c"};
    assert StringMember(f1, "kty") == StringMember(f2, "kty");
  }

  /** The written members depend only on `kty` and `x5c`, which are never written: normalising twice is normalising once. */
  lemma NormalizeKeyIdempotent(item: Json, parse: CertificateParser, enc: FieldEncoding)
    requires NormalizeKey(item, parse, enc).Success?
    ensures NormalizeKey(NormalizeKey(item, parse, enc).value, parse, enc) == NormalizeKey(item, parse, enc)
  {
    var out := NormalizeKey(item, parse, enc).value;
    if out != item {
      var f := item.fields;
      var key := X5cToCert(f["x5c"].items[0].s, parse).value.value;
      var g := f["n" := JString(enc(key.modulus))]["e" := JString(enc(key.exponent))];
      assert out == JObject(g);
      assert StringMember(g, "kty") == StringMember(f, "kty");
      assert g["x5c"] == f["x5c"];
      assert g["n" := JString(enc(key.modulus))]["e" := JString(enc(key.exponent))] == g;
    }
  }

  // ---------------------------------------------------------------------
  // The key list
  // ---------------------------------------------------------------------

  /** The loop over `keys`, entry by entry in order: the normalised list, or the first exception. */
  function NormalizeAll(keys: seq<Json>, parse: CertificateParser, enc: FieldEncoding): Result<seq<Json>, Exception>
  {
    if keys == [] then Success([])
    else
      match NormalizeAll(keys[..|keys| - 1], parse, enc)
      case Failure(x) => Failure(x)
      case Success(done) =>
        match NormalizeKey(keys[|keys| - 1], parse, enc)
        case Failure(x) => Failure(x)
        case Success(item) => Success(done + [item])
  }

  /**
   * The list succeeds exactly when every entry does; it then keeps the count and
   * the order, each entry normalised on its own; otherwise the exception is
   * that of the first failing entry.
   */
  lemma {:induction false} NormalizeAllEach(keys: seq<Json>, parse: CertificateParser, enc: FieldEncoding)
    ensures NormalizeAll(keys, parse, enc).Success? <==> forall i | 0 <= i < |keys| :: NormalizeKey(keys[i], parse, enc).Success?
    ensures NormalizeAll(keys, parse, enc).Success? ==>
      var out := NormalizeAll(keys, parse, enc).value;
      |out| == |keys| && forall i | 0 <= i < |keys| :: NormalizeKey(keys[i], parse, enc) == Success(out[i])
    ensures NormalizeAll(keys, parse, enc).Failure? ==>
      exists i | 0 <= i < |keys| :: NormalizeKey(keys[i], parse, enc) == Failure(NormalizeAll(keys, parse, enc).error)
        && forall j | 0 <= j < i :: NormalizeKey(keys[j], parse, enc).Success?
    decreases |keys|
  {
    if keys != [] {
      var init := keys[..|keys| - 1];
      NormalizeAllEach(init, parse, enc);
      assert forall i | 0 <= i < |init| :: init[i] == keys[i];
      var last := NormalizeKey(keys[|keys| - 1], parse, enc);
      if NormalizeAll(init, parse, enc).Failure? {
        var i :| 0 <= i < |init| && NormalizeKey(init[i], parse, enc) == Failure(NormalizeAll(init, parse, enc).error)
          && forall j | 0 <= j < i :: NormalizeKey(init[j], parse, enc).Success?;
        assert NormalizeKey(keys[i], parse, enc) == Failure(NormalizeAll(keys, parse, enc).error);
      } else if last.Failure? {
        assert NormalizeKey(keys[|keys| - 1], parse, enc) == Failure(NormalizeAll(keys, parse, enc).error);
      }
    }
  }

  /** Once a prefix of the list fails, the whole list fails with the same exception. */
  lemma {:induction false} NormalizeAllPrefix(keys: seq<Json>, i: nat, parse: CertificateParser, enc: FieldEncoding)
    requires i <= |keys|
    requires NormalizeAll(keys[..i], parse, enc).Failure?
    ensures NormalizeAll(keys, parse, enc) == NormalizeAll(keys[..i], parse, enc)
    decreases |keys| - i
  {
    if i == |keys| {
      assert keys[..i] == keys;
    } else {
      var init := keys[..|keys| - 1];
      assert init[..i] == keys[..i];
      NormalizeAllPrefix(init, i, parse, enc);
    }
  }

  lemma NormalizeAllIdempotent(keys: seq<Json>, parse: CertificateParser, enc: FieldEncoding)
    requires NormalizeAll(keys, parse, enc).Success?
    ensures NormalizeAll(NormalizeAll(keys, parse, enc).value, parse, enc) == NormalizeAll(keys, parse, enc)
  {
    var out := NormalizeAll(keys, parse, enc).value;
    NormalizeAllEach(keys, parse, enc);
    forall i | 0 <= i < |out| ensures NormalizeKey(out[i], parse, enc) == Success(out[i]) {
      NormalizeKeyIdempotent(keys[i], parse, enc);
    }
    NormalizeAllEach(out, parse, enc);
    var again := NormalizeAll(out, parse, enc).value;
    forall i | 0 <= i < |out| ensures again[i] == out[i] {
      assert NormalizeKey(out[i], parse, enc) == Success(again[i]);
    }
    assert again == out;
  }

  // ---------------------------------------------------------------------
  // transform
  // ---------------------------------------------------------------------

  /** The document after the loop: `keys` replaced by its normalised list, or the exception thrown. */
  function NormalizeJwks(jwks: map<string, Json>, parse: CertificateParser, enc: FieldEncoding): Result<map<string, Json>, Exception>
  {
    if "keys" !in jwks || jwks["keys"] == JNull then Failure(NullPointer)
    else
      match jwks["keys"]
      case JArray(items) =>
        (match NormalizeAll(items, parse, enc)
         case Failure(x) => Failure(x)
         case Success(out) => Success(jwks["keys" := JArray(out)]))
      case _ => Failure(ClassCast)
  }

  /**
   * A JWKS without a `keys` list fails with a NullPointerException, one whose
   * `keys` is not a list with a ClassCastException; otherwise the envelope
   * keeps every member, only `keys` changes, and it keeps its length.
   */
  lemma NormalizeJwksEnvelope(jwks: map<string, Json>, parse: CertificateParser, enc: FieldEncoding)
    ensures "keys" !in jwks || jwks["keys"] == JNull ==> NormalizeJwks(jwks, parse, enc) == Failure(NullPointer)
    ensures "keys" in jwks && jwks["keys"] != JNull && !jwks["keys"].JArray? ==>
      NormalizeJwks(jwks, parse, enc) == Failure(ClassCast)
    ensures NormalizeJwks(jwks, parse, enc).Success? ==>
      var out := NormalizeJwks(jwks, parse, enc).value;
      && out.Keys == jwks.Keys
      && (forall k | k in jwks && k != "keys" :: out[k] == jwks[k])
      && jwks["keys"].JArray? && out["keys"].JArray?
      && |out["keys"].items| == |jwks["keys"].items|
      && forall i | 0 <= i < |jwks["keys"].items| ::
           NormalizeKey(jwks["keys"].items[i], parse, enc) == Success(out["keys"].items[i])
  {
    if "keys" in jwks && jwks["keys"].JArray? {
      NormalizeAllEach(jwks["keys"].items, parse, enc);
    }
  }

  /** Running the normaliser on its own output changes nothing. */
  lemma NormalizeJwksIdempotent(jwks: map<string, Json>, parse: CertificateParser, enc: FieldEncoding)
    requires NormalizeJwks(jwks, parse, enc).Success?
    ensures NormalizeJwks(NormalizeJwks(jwks, parse, enc).value, parse, enc) == NormalizeJwks(jwks, parse, enc)
  {
    var out := NormalizeAll(jwks["keys"].items, parse, enc).value;
    NormalizeAllIdempotent(jwks["keys"].items, parse, enc);
    var top := jwks["keys" := JArray(out)];
    assert top["keys" := JArray(out)] == top;
  }

  /** transform on text: read, normalise, write back. */
  function TransformText(jwksContent: string, readJson: JsonReader<Exception>, writeJson: JsonWriter,
                         parse: CertificateParser, enc: FieldEncoding): Result<string, Exception>
  {
    match readJson(jwksContent)
    case Failure(x) => Failure(x)
    case Success(jwks) =>
      match NormalizeJwks(jwks, parse, enc)
      case Failure(x) => Failure(x)
      case Success(out) => Success(writeJson(out))
  }

  /** transform: the loop over the key list, updating each entry in place. */
  method Transform(jwksContent: string, readJson: JsonReader<Exception>, writeJson: JsonWriter,
                   parse: CertificateParser, enc: FieldEncoding) returns (r: Result<string, Exception>)
    ensures r == TransformText(jwksContent, readJson, writeJson, parse, enc)
  {
    var parsed := readJson(jwksContent);
    if parsed.Failure? {
      return Failure(parsed.error);
    }
    var jwks := parsed.value;
    if "keys" !in jwks || jwks["keys"] == JNull {
      return Failure(NullPointer);
    }
    if !jwks["keys"].JArray? {
      return Failure(ClassCast);
    }
    var original := jwks["keys"].items;
    var keylist := original;
    var i := 0;
    while i < |keylist|
      invariant i <= |keylist| == |original|
      invariant NormalizeAll(original[..i], parse, enc) == Success(keylist[..i])
      invariant keylist[i..] == original[i..]
    {
      var jwk := NormalizeKey(keylist[i], parse, enc);
      assert original[..i + 1][..i] == original[..i] && original[i] == keylist[i];
      if jwk.Failure? {
        NormalizeAllPrefix(original, i + 1, parse, enc);
        return Failure(jwk.error);
      }
      keylist := keylist[i := jwk.value];
      assert keylist[..i + 1] == keylist[..i] + [jwk.value];
      i := i + 1;
    }
    assert original[..i] == original;
    assert keylist[..i] == keylist;
    return Success(writeJson(jwks["keys" := JArray(keylist)]));
  }

  // ---------------------------------------------------------------------
  // execute
  // ---------------------------------------------------------------------

  /** The variable execute reads and writes: the resolved `source` property, `message.content` when there is none. */
  function SourceVariable(properties: map<string, string>, vars: map<string, string>): string
  {
    GetSource(properties, vars).GetOr(DefaultSource)
  }

  /**
   * The try block of execute as written: an unset source variable reaches
   * transform as null, and reading it fails with the host's `readNull`.
   */
  function Attempt(properties: map<string, string>, vars: map<string, string>, host: Host, enc: FieldEncoding)
    : Result<(string, string), Exception>
  {
    var source := SourceVariable(properties, vars);
    if source !in vars then Failure(host.readNull)
    else
      match TransformText(vars[source], host.readJson, host.writeJson, host.parse, enc)
      case Failure(x) => Failure(x)
      case Success(out) => Success((source, out))
  }

  /** The try block with the null check the tests expect: an unset source variable is an IllegalStateException. */
  function CheckedAttempt(properties: map<string, string>, vars: map<string, string>, host: Host, enc: FieldEncoding)
    : Result<(string, string), Exception>
  {
    if SourceVariable(properties, vars) !in vars then Failure(IllegalState("source variable resolves to null"))
    else Attempt(properties, vars, host, enc)
  }

  /** The result of execute and the context it leaves behind, given the outcome of its try block. */
  function Finish(attempt: Result<(string, string), Exception>, properties: map<string, string>,
                  vars: map<string, string>, host: Host): (ExecutionResult, map<string, string>)
  {
    match attempt
    case Success((variable, out)) => (Succeeded, vars[variable := out])
    case Failure(x) => (Aborted, AfterCatch(vars, x, GetDebug(properties), host.stackTraceOf))
  }

  function Outcome(properties: map<string, string>, vars: map<string, string>, host: Host): (ExecutionResult, map<string, string>)
  {
    Finish(Attempt(properties, vars, host, Encode), properties, vars, host)
  }

  function CorrectedOutcome(properties: map<string, string>, vars: map<string, string>, host: Host): (ExecutionResult, map<string, string>)
  {
    Finish(CheckedAttempt(properties, vars, host, EncodeUnsigned), properties, vars, host)
  }

  /** Without a usable `source` property execute works on `message.content`. */
  lemma SourceDefaultsToMessageContent(properties: map<string, string>, vars: map<string, string>)
    requires "source" !in properties || Trim(properties["source"]) == ""
    ensures SourceVariable(properties, vars) == DefaultSource
  {
  }

  /** On success the normalised document replaces the text in the very variable it came from, and nothing else changes. */
  lemma ExecuteWritesBack(properties: map<string, string>, vars: map<string, string>, host: Host, out: string)
    requires SourceVariable(properties, vars) in vars
    requires TransformText(vars[SourceVariable(properties, vars)], host.readJson, host.writeJson, host.parse, Encode) == Success(out)
    ensures var (result, after) := Outcome(properties, vars, host);
      && result == Succeeded
      && after.Keys == vars.Keys
      && after[SourceVariable(properties, vars)] == out
      && forall k | k in vars && k != SourceVariable(properties, vars) :: after[k] == vars[k]
  {
  }

  /** Any failure of transform aborts, and the document variable keeps its text. */
  lemma ExecuteFailureKeepsSource(properties: map<string, string>, vars: map<string, string>, host: Host)
    requires Attempt(properties, vars, host, Encode).Failure?
    ensures var (result, after) := Outcome(properties, vars, host);
      && result == Aborted
      && forall k | k in vars && k != VarName("exception") && k != VarName("error") && k != VarName("stacktrace") ::
           k in after && after[k] == vars[k]
  {
  }

  /** A NullPointerException without a message records its class name as the error. */
  lemma NullPointerRecorded(vars: map<string, string>)
    ensures WithExceptionVariables(vars, NullPointer)[VarName("error")] == NullPointerClass
  {
    ClassNameIsError(vars, NullPointer);
  }

  /**
   * As written, an unset source variable with debug on aborts with whatever
   * reading the null document throws and records its stack trace; the tests
   * expect "source variable resolves to null" and no stack trace. When that
   * exception has no message, as a NullPointerException here does, the error
   * is its class name and not the expected text.
   */
  lemma ExecuteUnsetSourceAsWritten(properties: map<string, string>, vars: map<string, string>, host: Host)
    requires SourceVariable(properties, vars) !in vars && GetDebug(properties)
    requires !host.readNull.isIllegalState
    ensures var (result, after) := Outcome(properties, vars, host);
      && result == Aborted
      && VarName("stacktrace") in after
      && after[VarName("stacktrace")] == host.stackTraceOf(host.readNull)
      && (host.readNull.message.None? && host.readNull.className != []
          && (forall k | 0 <= k < |host.readNull.className| :: ClassNameChar(host.readNull.className[k])) ==>
            && after[VarName("error")] == host.readNull.className
            && after[VarName("error")] != "source variable resolves to null")
  {
    var x := host.readNull;
    var vars' := vars[VarName("stacktrace") := host.stackTraceOf(x)];
    assert Attempt(properties, vars, host, Encode) == Failure(x);
    assert Outcome(properties, vars, host) == (Aborted, WithExceptionVariables(vars', x));
    if x.message.None? && x.className != [] && forall k | 0 <= k < |x.className| :: ClassNameChar(x.className[k]) {
      ClassNameIsError(vars', x);
      ClassNameIsNotNullSourceMessage(x.className);
    }
  }

  /**
   * When reading the null document throws an IllegalStateException or one of
   * its subclasses, the first catch block takes it: the run aborts with no
   * stack trace written.
   */
  lemma ExecuteUnsetSourceIllegalState(properties: map<string, string>, vars: map<string, string>, host: Host)
    requires SourceVariable(properties, vars) !in vars && host.readNull.isIllegalState
    ensures var (result, after) := Outcome(properties, vars, host);
      && result == Aborted
      && (VarName("stacktrace") in after <==> VarName("stacktrace") in vars)
      && (VarName("stacktrace") in vars ==> after[VarName("stacktrace")] == vars[VarName("stacktrace")])
  {
    assert Attempt(properties, vars, host, Encode) == Failure(host.readNull);
    assert Outcome(properties, vars, host) == (Aborted, WithExceptionVariables(vars, host.readNull));
  }

  /** No class name reads "source variable resolves to null": class names hold no space. */
  lemma ClassNameIsNotNullSourceMessage(name: string)
    requires forall k | 0 <= k < |name| :: ClassNameChar(name[k])
    ensures name != "source variable resolves to null"
  {
    assert |name| > 6 ==> (name[6] == ' ' ==> !ClassNameChar(name[6]));
  }

  /** With the null check, the same configuration aborts with "source variable resolves to null" and no stack trace. */
  lemma ExecuteUnsetSourceCorrected(properties: map<string, string>, vars: map<string, string>, host: Host)
    requires SourceVariable(properties, vars) !in vars
    ensures var (result, after) := CorrectedOutcome(properties, vars, host);
      && result == Aborted
      && after[VarName("error")] == "source variable resolves to null"
      && (VarName("stacktrace") in after <==> VarName("stacktrace") in vars)
  {
    NullSourceOnOneLine();
    IllegalStateError(vars, "source variable resolves to null");
  }

  /** The JWKS normaliser callout object: its read-only properties, filtered from the raw map at construction. */
  class TransformJwksCallout {
    const properties: map<string, string>

    constructor (raw: map<JavaObject, JavaObject>)
      ensures forall k :: k in properties <==> JavaString(k) in raw && raw[JavaString(k)].JavaString?
      ensures forall k | k in properties :: raw[JavaString(k)] == JavaString(properties[k])
    {
      var m := GenericizeMap(raw);
      properties := m;
    }

    /** execute as written: default the source, transform its text, write it back or record the exception. */
    method Execute(ctx: MessageContext, host: Host) returns (result: ExecutionResult)
      modifies ctx
      ensures (result, ctx.variables) == Outcome(properties, old(ctx.variables), host)
    {
      var failure: Exception;
      var sourceVariable := GetSource(properties, ctx.variables).GetOr(DefaultSource);
      var source := ctx.GetVariable(sourceVariable);
      if source.None? {
        failure := host.readNull;
      } else {
        var transformed := Transform(source.value, host.readJson, host.writeJson, host.parse, Encode);
        if transformed.Failure? {
          failure := transformed.error;
        } else {
          ctx.SetVariable(sourceVariable, transformed.value);
          return Succeeded;
        }
      }
      result := Catch(failure, ctx, GetDebug(properties), host.stackTraceOf);
    }

    /** execute with the null check the tests expect and the base64url magnitude encoding of `n` and `e`. */
    method ExecuteCorrected(ctx: MessageContext, host: Host) returns (result: ExecutionResult)
      modifies ctx
      ensures (result, ctx.variables) == CorrectedOutcome(properties, old(ctx.variables), host)
    {
      var failure: Exception;
      var sourceVariable := GetSource(properties, ctx.variables).GetOr(DefaultSource);
      var source := ctx.GetVariable(sourceVariable);
      if source.None? {
        failure := IllegalState("source variable resolves to null");
      } else {
        var transformed := Transform(source.value, host.readJson, host.writeJson, host.parse, EncodeUnsigned);
        if transformed.Failure? {
          failure := transformed.error;
        } else {
          ctx.SetVariable(sourceVariable, transformed.value);
          return Succeeded;
        }
      }
      result := Catch(failure, ctx, GetDebug(properties), host.stackTraceOf);
    }
  }
}
