/**
 * The JWK-to-PEM callout: reads an RSA public key in JWK form (members `n`
 * and `e`, base64url big-endian magnitudes) from a context variable and
 * writes the same key as a PEM-armoured SubjectPublicKeyInfo.
 */
module JwkToPem {
  import opened Wrappers
  import opened ByteInt
  import Base64
  import Der
  import Pem
  import opened JsonValues
  import opened CalloutBase

  const InvalidKeySpecClass: string := "java.security.spec.InvalidKeySpecException"

  /** Base64.getUrlDecoder().decode on a member already cast to String. */
  function DecodeMember(f: StringField): (r: Result<seq<byte>, Exception>)
    requires !f.NotAString?
    ensures f.NullString? ==> r == Failure(Exception(NullPointerClass, None, false))
    ensures f.Str? ==> (r.Success? <==> Base64.Decode(f.s, Base64.UrlSafe).Some?)
    ensures r.Success? ==> f.Str? && Base64.Decode(f.s, Base64.UrlSafe) == Some(r.value)
  {
    match f
    case NullString => Failure(Exception(NullPointerClass, None, false))
    case Str(t) =>
      match Base64.Decode(t, Base64.UrlSafe)
      case None => Failure(Exception(IllegalArgumentClass, None, false))
      case Some(b) => Success(b)
  }

  /**
   * transform: cast `n` and `e` to strings, base64url-decode both, read them
   * as unsigned integers, build the SubjectPublicKeyInfo and armour it.
   */
  function Transform(jwk: map<string, Json>): (r: Result<string, Exception>)
    ensures r.Success? ==>
      (|r.value| >= |Pem.Header| + |Pem.Footer|
       && r.value[..|Pem.Header|] == Pem.Header && r.value[|r.value| - |Pem.Footer|..] == Pem.Footer)
  {
    var n := StringMember(jwk, "n");
    var e := StringMember(jwk, "e");
    if n.NotAString? || e.NotAString? then Failure(Exception(ClassCastClass, None, false))
    else
      match DecodeMember(n)
      case Failure(x) => Failure(x)
      case Success(nbytes) =>
        match DecodeMember(e)
        case Failure(x) => Failure(x)
        case Success(ebytes) =>
          match Der.SpkiDer(UnsignedValue(nbytes), UnsignedValue(ebytes))
          case None => Failure(Exception(InvalidKeySpecClass, None, false))
          case Some(der) => Success(Pem.Armor(der))
  }

  // ---------------------------------------------------------------------
  // Properties of transform
  // ---------------------------------------------------------------------

  /** A JWK without `n` or without `e` (absent or null) yields no PEM. */
  lemma TransformNeedsBothMembers(jwk: map<string, Json>)
    requires "n" !in jwk || jwk["n"] == JNull || "e" !in jwk || jwk["e"] == JNull
    ensures Transform(jwk).Failure?
  {
  }

  /** A member that is not base64url text yields no PEM: this includes text with '+' or '/'. */
  lemma TransformRejectsStandardAlphabet(jwk: map<string, Json>, t: string, i: nat)
    requires "n" in jwk && jwk["n"] == JString(t)
    requires i < |t| && (t[i] == '+' || t[i] == '/')
    ensures Transform(jwk).Failure?
  {
    Base64.UrlDecodeRejectsStandardOnlyChars(t, i);
  }

  /**
   * The PEM reads back as exactly the key the JWK describes: the armour
   * decodes to a SubjectPublicKeyInfo for rsaEncryption whose modulus and
   * exponent are the decoded members read as unsigned big-endian numbers.
   */
  lemma TransformReadsBack(jwk: map<string, Json>, nt: string, et: string)
    requires "n" in jwk && jwk["n"] == JString(nt)
    requires "e" in jwk && jwk["e"] == JString(et)
    requires Base64.Decode(nt, Base64.UrlSafe).Some? && Base64.Decode(et, Base64.UrlSafe).Some?
    ensures var n := UnsignedValue(Base64.Decode(nt, Base64.UrlSafe).value);
      var e := UnsignedValue(Base64.Decode(et, Base64.UrlSafe).value);
      && (Transform(jwk).Success? <==> Der.SpkiDer(n, e).Some?)
      && (Transform(jwk).Success? ==> Pem.Dearmor(Transform(jwk).value) == Some(Der.SpkiDer(n, e).value))
      && (Transform(jwk).Success? ==>
            Der.ParseRsaSpki(Pem.Dearmor(Transform(jwk).value).value) == Some((n, e)))
  {
    var n := UnsignedValue(Base64.Decode(nt, Base64.UrlSafe).value);
    var e := UnsignedValue(Base64.Decode(et, Base64.UrlSafe).value);
    TransformOfStrings(jwk, nt, et);
    if Der.SpkiDer(n, e).Some? {
      Pem.DearmorArmor(Der.SpkiDer(n, e).value);
      Der.SpkiRoundTrip(n, e);
    }
  }

  /** With both members decodable, transform armours the key's DER when it has one and fails otherwise. */
  lemma TransformOfStrings(jwk: map<string, Json>, nt: string, et: string)
    requires "n" in jwk && jwk["n"] == JString(nt)
    requires "e" in jwk && jwk["e"] == JString(et)
    requires Base64.Decode(nt, Base64.UrlSafe).Some? && Base64.Decode(et, Base64.UrlSafe).Some?
    ensures var n := UnsignedValue(Base64.Decode(nt, Base64.UrlSafe).value);
      var e := UnsignedValue(Base64.Decode(et, Base64.UrlSafe).value);
      Transform(jwk) == if Der.SpkiDer(n, e).Some? then Success(Pem.Armor(Der.SpkiDer(n, e).value))
        else Failure(Exception(InvalidKeySpecClass, None, false))
  {
    assert StringMember(jwk, "n") == Str(nt) && StringMember(jwk, "e") == Str(et);
  }


  /**
   * For any byte strings written as unpadded base64url, the PEM holds the
   * magnitudes they denote, whatever their leading bytes.
   */
  lemma TransformOfEncodedKey(jwk: map<string, Json>, nbytes: seq<byte>, ebytes: seq<byte>)
    requires "n" in jwk && jwk["n"] == JString(Base64.Encode(nbytes, Base64.UrlSafe, false))
    requires "e" in jwk && jwk["e"] == JString(Base64.Encode(ebytes, Base64.UrlSafe, false))
    requires Der.SpkiDer(UnsignedValue(nbytes), UnsignedValue(ebytes)).Some?
    ensures Transform(jwk).Success? && Pem.Dearmor(Transform(jwk).value).Some?
    ensures Der.ParseRsaSpki(Pem.Dearmor(Transform(jwk).value).value) == Some((UnsignedValue(nbytes), UnsignedValue(ebytes)))
  {
    var n, e := UnsignedValue(nbytes), UnsignedValue(ebytes);
    TransformOfDecodedMembers(jwk, nbytes, ebytes);
    Pem.DearmorArmor(Der.SpkiDer(n, e).value);
    Der.SpkiRoundTrip(n, e);
  }

  /** Members that are unpadded base64url of some bytes decode to those bytes, and transform armours their DER. */
  lemma TransformOfDecodedMembers(jwk: map<string, Json>, nbytes: seq<byte>, ebytes: seq<byte>)
    requires "n" in jwk && jwk["n"] == JString(Base64.Encode(nbytes, Base64.UrlSafe, false))
    requires "e" in jwk && jwk["e"] == JString(Base64.Encode(ebytes, Base64.UrlSafe, false))
    requires Der.SpkiDer(UnsignedValue(nbytes), UnsignedValue(ebytes)).Some?
    ensures Transform(jwk) == Success(Pem.Armor(Der.SpkiDer(UnsignedValue(nbytes), UnsignedValue(ebytes)).value))
  {
    Base64.DecodeEncode(nbytes, Base64.UrlSafe, false);
    Base64.DecodeEncode(ebytes, Base64.UrlSafe, false);
    assert DecodeMember(StringMember(jwk, "n")) == Success(nbytes);
    assert DecodeMember(StringMember(jwk, "e")) == Success(ebytes);
  }

  /** The PEM body: lines of at most 64 characters, all but the last full, joined they are the padded base64 of the DER. */
  lemma TransformLayout(jwk: map<string, Json>, der: seq<byte>)
    requires Transform(jwk) == Success(Pem.Armor(der))
    ensures var body := Base64.Encode(der, Base64.Standard, true);
      var lines := Pem.BodyLines(body);
      && Transform(jwk).value == Pem.Header + Pem.Terminate(lines) + Pem.Footer
      && (forall i | 0 <= i < |lines| :: 1 <= |lines[i]| <= 64)
      && (forall i | 0 <= i < |lines| - 1 :: |lines[i]| == 64)
      && Pem.RemoveNewlines(Pem.Wrap(body)) == body
      && |body| % 4 == 0
      && Base64.Decode(body, Base64.Standard) == Some(der)
  {
    Pem.ArmorBody(der);
  }

  // ---------------------------------------------------------------------
  // The 4096-bit test key
  // ---------------------------------------------------------------------

  /** What precedes the modulus bytes in the SubjectPublicKeyInfo of a 4096-bit modulus with exponent 65537. */
  const Prefix4096: seq<byte> := [0x30, 0x82, 0x02, 0x22] + Der.RsaAlgorithmIdentifier
    + [0x03, 0x82, 0x02, 0x0F, 0x00, 0x30, 0x82, 0x02, 0x0A, 0x02, 0x82, 0x02, 0x01]

  /** What follows the modulus bytes: the INTEGER 65537. */
  const Suffix65537: seq<byte> := [0x02, 0x03, 0x01, 0x00, 0x01]

  /** The exponent "AQAB" of the test key reads as 65537. */
  lemma ExponentAQAB()
    ensures Base64.Decode("AQAB", Base64.UrlSafe) == Some([1, 0, 1])
    ensures UnsignedValue([1, 0, 1]) == 65537
  {
    Base64.EncodeThree(1, 0, 1, Base64.UrlSafe, false);
    assert Base64.Encode([1, 0, 1], Base64.UrlSafe, false) == "AQAB";
    Base64.DecodeEncode([1, 0, 1], Base64.UrlSafe, false);
    assert UnsignedValue([1]) == 1;
    assert [1, 0, 1][..2] == [1, 0] && [1, 0][..1] == [1];
    assert UnsignedValue([1, 0]) == 256;
  }

  /** 65537 is written as the INTEGER 02 03 01 00 01. */
  lemma ExponentTlv()
    ensures Der.LengthEncodable(|ToByteArray(65537)|) && Der.IntegerTlv(65537) == Suffix65537
  {
    assert BitLength(65537) == 17 by {
      assert Pow2(2) == 4;
      Pow2Add(2, 2);
      Pow2Add(4, 4);
      Pow2Add(8, 8);
      assert Pow2(17) == 2 * Pow2(16);
      BitLengthUnique(65537, 17);
    }
    assert ToByteArray(65537) == [1, 0, 1] by {
      assert BigEndian(0, 0) == [];
      assert BigEndian(1, 1) == [1];
      assert BigEndian(256, 2) == [1, 0];
    }
    assert Der.LengthOctets(3) == [3];
  }

  /** A 4096-bit modulus is written as an INTEGER of 513 content bytes. */
  lemma ModulusTlv(n: nat)
    requires BitLength(n) == 4096
    ensures Der.LengthEncodable(|ToByteArray(n)|)
    ensures Der.IntegerTlv(n) == [0x02, 0x82, 0x02, 0x01] + ToByteArray(n)
  {
    var nb := ToByteArray(n);
    assert |nb| == 513;
    Der.LongFormTlv(Der.TagInteger, nb);
    assert Der.LongHeader(Der.TagInteger, 513) == [0x02, 0x82, 0x02, 0x01];
  }

  /** The long-form layout of the 4096-bit key flattens to the prefix, the modulus bytes and the exponent. */
  lemma Flatten4096(nb: seq<byte>)
    ensures Der.LongHeader(Der.TagSequence, 546) + Der.RsaAlgorithmIdentifier + Der.LongHeader(Der.TagBitString, 527) + [0]
      + Der.LongHeader(Der.TagSequence, 522) + ([0x02, 0x82, 0x02, 0x01] + nb + Suffix65537) == Prefix4096 + nb + Suffix65537
  {
    assert Der.LongHeader(Der.TagSequence, 546) == [0x30, 0x82, 0x02, 0x22];
    assert Der.LongHeader(Der.TagBitString, 527) == [0x03, 0x82, 0x02, 0x0F];
    assert Der.LongHeader(Der.TagSequence, 522) == [0x30, 0x82, 0x02, 0x0A];
  }

  /** For any 4096-bit modulus and exponent 65537 the DER is 550 bytes: a fixed 32-byte prefix, the 513 modulus bytes, then the exponent. */
  lemma SpkiDer4096(n: nat)
    requires BitLength(n) == 4096
    ensures Der.SpkiDer(n, 65537) == Some(Prefix4096 + ToByteArray(n) + Suffix65537)
  {
    var nb := ToByteArray(n);
    ModulusTlv(n);
    ExponentTlv();
    var key := [0x02, 0x82, 0x02, 0x01] + nb + Suffix65537;
    assert Der.IntegerTlv(n) + Der.IntegerTlv(65537) == key;
    assert |key| == 522;
    Der.SpkiDerLongForm(n, 65537);
    assert Der.SpkiDer(n, 65537) == Some(Der.LongHeader(Der.TagSequence, 546) + Der.RsaAlgorithmIdentifier
      + Der.LongHeader(Der.TagBitString, 527) + [0] + Der.LongHeader(Der.TagSequence, 522) + key);
    Flatten4096(nb);
  }

  /**
   * Whatever the 512 magnitude bytes of the modulus are, the padded
   * standard base64 of the key is 736 characters, starting with the 44 that
   * encode the prefix and the sign byte, ending with the 8 that encode the
   * last four bytes.
   */
  lemma Body4096(nb: seq<byte>)
    requires |nb| == 513 && nb[0] == 0
    ensures var body := Base64.Encode(Prefix4096 + nb + Suffix65537, Base64.Standard, true);
      && |body| == 736
      && body[..44] == Base64.Encode(Prefix4096 + [0], Base64.Standard, false)
      && body[728..] == "AwEAAQ=="
  {
    var a, b, c := Prefix4096 + [0], nb[1..] + [0x02], [0x03, 0x01, 0x00, 0x01];
    KeyBytesSplit(nb);
    Base64.EncodeAppend(a, b + c, Base64.Standard, true);
    Base64.EncodeAppend(b, c, Base64.Standard, true);
    Base64.PaddedLength(a + (b + c), Base64.Standard);
    SuffixBase64();
    SliceEnds(Base64.Encode(a, Base64.Standard, false), Base64.Encode(b, Base64.Standard, false), Base64.Encode(c, Base64.Standard, true));
  }

  /** The key bytes split after the sign byte and before the last four bytes. */
  lemma KeyBytesSplit(nb: seq<byte>)
    requires |nb| > 0 && nb[0] == 0
    ensures Prefix4096 + nb + Suffix65537 == (Prefix4096 + [0]) + ((nb[1..] + [0x02]) + [0x03, 0x01, 0x00, 0x01])
  {
    assert nb == [0] + nb[1..];
  }

  /** The last four bytes, 02 03 01 00 01 without its tag, encode with padding to eight characters. */
  lemma SuffixBase64()
    ensures Base64.Encode([0x03, 0x01, 0x00, 0x01], Base64.Standard, true) == "AwEAAQ=="
  {
    assert [0x03, 0x01, 0x00] + [0x01] == [0x03, 0x01, 0x00, 0x01];
    Base64.EncodeAppend([0x03, 0x01, 0x00], [0x01], Base64.Standard, true);
    ExponentGroup();
    LastByte();
  }

  lemma ExponentGroup()
    ensures Base64.Encode([0x03, 0x01, 0x00], Base64.Standard, false) == "AwEA"
  {
    Base64.EncodeThree(0x03, 0x01, 0x00, Base64.Standard, false);
    assert Base64.Group0(3) == 0 && Base64.Group1(3, 1) == 48 && Base64.Group2(1, 0) == 4 && Base64.Group3(0) == 0;
    assert Base64.CharOf(Base64.Standard, 0) == 'A' && Base64.CharOf(Base64.Standard, 48) == 'w';
    assert Base64.CharOf(Base64.Standard, 4) == 'E';
  }

  lemma LastByte()
    ensures Base64.Encode([0x01], Base64.Standard, true) == "AQ=="
  {
    Base64.EncodeOne(0x01, Base64.Standard, true);
    assert Base64.Group0(1) == 0 && Base64.Group1(1, 0) == 16;
    assert Base64.CharOf(Base64.Standard, 0) == 'A' && Base64.CharOf(Base64.Standard, 16) == 'Q';
  }

  lemma SliceEnds(x: string, y: string, z: string)
    ensures (x + (y + z))[..|x|] == x
    ensures (x + (y + z))[|x| + |y|..] == z
  {
  }

  /** A 4096-bit modulus has a leading zero sign byte in its 513-byte two's-complement form. */
  lemma ModulusSignByte(n: nat)
    requires BitLength(n) == 4096
    ensures |ToByteArray(n)| == 513 && ToByteArray(n)[0] == 0
  {
    assert n != 0;
    MagnitudeFacts(n);
  }

  /**
   * The test configuration's JWK (a 4096-bit `n`, `e` = "AQAB") gives a PEM of
   * twelve body lines, the first starting and the last ending as the
   * expected block does.
   */
  lemma TestKeyPem(jwk: map<string, Json>, nt: string, nbytes: seq<byte>)
    requires "n" in jwk && jwk["n"] == JString(nt)
    requires Base64.Decode(nt, Base64.UrlSafe) == Some(nbytes) && BitLength(UnsignedValue(nbytes)) == 4096
    requires "e" in jwk && jwk["e"] == JString("AQAB")
    ensures Transform(jwk).Success? && Der.SpkiDer(UnsignedValue(nbytes), 65537).Some?
    ensures var lines := Pem.BodyLines(Base64.Encode(Der.SpkiDer(UnsignedValue(nbytes), 65537).value, Base64.Standard, true));
      && Transform(jwk).value == Pem.Header + Pem.Terminate(lines) + Pem.Footer
      && |lines| == 12
      && (forall i | 0 <= i < 11 :: |lines[i]| == 64)
      && |lines[11]| == 32
      && lines[0][..44] == Base64.Encode(Prefix4096 + [0], Base64.Standard, false)
      && lines[11][24..] == "AwEAAQ=="
  {
    var n := UnsignedValue(nbytes);
    SpkiDer4096(n);
    ModulusSignByte(n);
    Body4096(ToByteArray(n));
    TestKeyTransform(jwk, nt, nbytes);
    Lines736(Base64.Encode(Der.SpkiDer(n, 65537).value, Base64.Standard, true));
  }

  /** With `e` = "AQAB" and a 4096-bit `n`, transform succeeds with the armour of the key's DER. */
  lemma TestKeyTransform(jwk: map<string, Json>, nt: string, nbytes: seq<byte>)
    requires "n" in jwk && jwk["n"] == JString(nt)
    requires Base64.Decode(nt, Base64.UrlSafe) == Some(nbytes) && BitLength(UnsignedValue(nbytes)) == 4096
    requires "e" in jwk && jwk["e"] == JString("AQAB")
    ensures Der.SpkiDer(UnsignedValue(nbytes), 65537).Some?
    ensures Transform(jwk) == Success(Pem.Armor(Der.SpkiDer(UnsignedValue(nbytes), 65537).value))
  {
    ExponentAQAB();
    SpkiDer4096(UnsignedValue(nbytes));
    TransformOfStrings(jwk, nt, "AQAB");
  }

  /** A 736-character body breaks into eleven full lines and a last line of 32. */
  lemma Lines736(body: string)
    requires |body| == 736
    ensures var lines := Pem.BodyLines(body);
      && |lines| == 12
      && (forall i | 0 <= i < 11 :: |lines[i]| == 64)
      && |lines[11]| == 32
      && lines[0][..44] == body[..44]
      && lines[11][24..] == body[728..]
  {
    var lines := Pem.BodyLines(body);
    Pem.BodyLineAt(body, 0);
    Pem.BodyLineAt(body, 11);
  }

  // ---------------------------------------------------------------------
  // execute
  // ---------------------------------------------------------------------

  function GetDestination(properties: map<string, string>, ctx: map<string, string>): Option<string>
  {
    ResolvedProperty(properties, "destination", ctx)
  }

  /** The body of the try block: the destination variable and the PEM, or the exception thrown. */
  function Attempt(properties: map<string, string>, vars: map<string, string>, readJson: JsonReader<Exception>): Result<(string, string), Exception>
  {
    var source := GetSource(properties, vars);
    if source.None? then Failure(IllegalState("source not specified"))
    else
      var destination := GetDestination(properties, vars).GetOr("jwks_pem");
      if source.value !in vars then Failure(IllegalState("source variable resolves to null"))
      else
        match readJson(vars[source.value])
        case Failure(x) => Failure(x)
        case Success(jwk) =>
          match Transform(jwk)
          case Failure(x) => Failure(x)
          case Success(pem) => Success((destination, pem))
  }

  /** The result of execute and the context it leaves behind. */
  function Outcome(properties: map<string, string>, vars: map<string, string>, readJson: JsonReader<Exception>,
                   stackTraceOf: Exception -> string): (ExecutionResult, map<string, string>)
  {
    match Attempt(properties, vars, readJson)
    case Success((destination, pem)) => (Succeeded, vars[destination := pem])
    case Failure(x) => (Aborted, AfterCatch(vars, x, GetDebug(properties), stackTraceOf))
  }

  /** A missing or blank `source` property aborts with "source not specified" and records no stack trace. */
  lemma ExecuteWithoutSource(properties: map<string, string>, vars: map<string, string>, readJson: JsonReader<Exception>,
                             stackTraceOf: Exception -> string)
    requires "source" !in properties || Trim(properties["source"]) == ""
    ensures var (result, after) := Outcome(properties, vars, readJson, stackTraceOf);
      && result == Aborted
      && after[VarName("error")] == "source not specified"
      && (VarName("stacktrace") in after <==> VarName("stacktrace") in vars)
  {
    NoSourceOnOneLine();
    IllegalStateError(vars, "source not specified");
  }

  lemma NoSourceOnOneLine()
    ensures OnOneLine("source not specified")
  {
  }

  /** A source naming an unset variable aborts with "source variable resolves to null" and records no stack trace. */
  lemma ExecuteWithUnsetSource(properties: map<string, string>, vars: map<string, string>, readJson: JsonReader<Exception>,
                               stackTraceOf: Exception -> string)
    requires GetSource(properties, vars).Some? && GetSource(properties, vars).value !in vars
    ensures var (result, after) := Outcome(properties, vars, readJson, stackTraceOf);
      && result == Aborted
      && after[VarName("error")] == "source variable resolves to null"
      && (VarName("stacktrace") in after <==> VarName("stacktrace") in vars)
  {
    NullSourceOnOneLine();
    IllegalStateError(vars, "source variable resolves to null");
  }

  /**
   * On success the PEM of the source variable's JWK lands in the destination
   * variable, `jwks_pem` when no destination is configured, and nothing else changes.
   */
  lemma ExecuteSuccess(properties: map<string, string>, vars: map<string, string>, readJson: JsonReader<Exception>,
                       stackTraceOf: Exception -> string, jwk: map<string, Json>)
    requires GetSource(properties, vars).Some? && GetSource(properties, vars).value in vars
    requires readJson(vars[GetSource(properties, vars).value]) == Success(jwk)
    requires Transform(jwk).Success?
    ensures var (result, after) := Outcome(properties, vars, readJson, stackTraceOf);
      var destination := if "destination" in properties && GetDestination(properties, vars).Some?
        then GetDestination(properties, vars).value else "jwks_pem";
      && result == Succeeded
      && after == vars[destination := Transform(jwk).value]
  {
  }

  /** The test configuration `source = jwk1`: the PEM goes to `jwks_pem`, and no error is recorded. */
  lemma ExecuteDefaultDestination(vars: map<string, string>, readJson: JsonReader<Exception>, stackTraceOf: Exception -> string,
                                  jwk: map<string, Json>)
    requires "jwk1" in vars && readJson(vars["jwk1"]) == Success(jwk) && Transform(jwk).Success?
    ensures var properties := map["debug" := "true", "source" := "jwk1"];
      var (result, after) := Outcome(properties, vars, readJson, stackTraceOf);
      && result == Succeeded
      && after == vars["jwks_pem" := Transform(jwk).value]
  {
    var properties := map["debug" := "true", "source" := "jwk1"];
    TestProperties(vars);
    ExecuteSuccess(properties, vars, readJson, stackTraceOf, jwk);
  }

  /** The test configuration names `jwk1` as its source and no destination. */
  lemma TestProperties(vars: map<string, string>)
    ensures var properties := map["debug" := "true", "source" := "jwk1"];
      GetSource(properties, vars) == Some("jwk1") && "destination" !in properties
  {
    var properties := map["debug" := "true", "source" := "jwk1"];
    TestPropertyMap();
    PlainJwk1();
    GetSourcePlainName(properties, vars, "", "jwk1");
  }

  lemma TestPropertyMap()
    ensures var properties := map["debug" := "true", "source" := "jwk1"];
      && "source" in properties && properties["source"] == "" + "jwk1" + "" && "destination" !in properties
  {
    assert "" + "jwk1" + "" == "jwk1";
  }

  lemma PlainJwk1()
    ensures "jwk1" != [] && !IsBlank("jwk1"[0]) && !IsBlank("jwk1"[|"jwk1"| - 1]) && '{' !in "jwk1"
  {
  }

  /** The JWK-to-PEM callout object: its read-only properties, filtered from the raw map at construction. */
  class JwkToPemCallout {
    const properties: map<string, string>

    constructor (raw: map<JavaObject, JavaObject>)
      ensures forall k :: k in properties <==> JavaString(k) in raw && raw[JavaString(k)].JavaString?
      ensures forall k | k in properties :: raw[JavaString(k)] == JavaString(properties[k])
    {
      var m := GenericizeMap(raw);
      properties := m;
    }

    /** execute: run the try block, then write the PEM or record the exception. */
    method Execute(ctx: MessageContext, readJson: JsonReader<Exception>, stackTraceOf: Exception -> string)
      returns (result: ExecutionResult)
      modifies ctx
      ensures (result, ctx.variables) == Outcome(properties, old(ctx.variables), readJson, stackTraceOf)
    {
      var failure: Exception;
      var source := GetSource(properties, ctx.variables);
      if source.None? {
        failure := IllegalState("source not specified");
      } else {
        var destination := GetDestination(properties, ctx.variables).GetOr("jwks_pem");
        var content := ctx.GetVariable(source.value);
        if content.None? {
          failure := IllegalState("source variable resolves to null");
        } else {
          var parsed := readJson(content.value);
          if parsed.Failure? {
            failure := parsed.error;
          } else {
            var pem := Transform(parsed.value);
            if pem.Failure? {
              failure := pem.error;
            } else {
              ctx.SetVariable(destination, pem.value);
              return Succeeded;
            }
          }
        }
      }
      result := Catch(failure, ctx, GetDebug(properties), stackTraceOf);
    }
  }
}
