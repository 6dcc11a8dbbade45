# Apigee JWK / JWKS callouts, modelled in Dafny

This project models the two Apigee Java callouts of the repository and the
helpers they share.

- **JwkToPem** reads an RSA public key in JWK form from a flow variable. It
  takes the members `n` and `e`: big-endian magnitudes in unpadded base64url.
  It writes the same key as a PEM block, `-----BEGIN PUBLIC KEY-----`, the
  base64 of the X.509 SubjectPublicKeyInfo in lines of at most 64
  characters, then `-----END PUBLIC KEY-----`.
- **TransformJwks** reads a JWK Set from a flow variable (`message.content`
  by default). For every RSA key that carries an `x5c` certificate chain,
  it overwrites `n` and `e` with the modulus and exponent of the first
  certificate's public key. It writes the document back into the same
  variable.
- **CalloutBase** holds the shared helpers, which TransformJwks carries as
  a verbatim copy:
  - the filtering of the property map;
  - `{variable}` / `{variable:default}` reference resolution in property values;
  - the `source` and `debug` properties;
  - how a caught exception is recorded in the `jwks_exception`,
    `jwks_error` and `jwks_stacktrace` variables.

Modules, one file each:

- `Wrappers` holds Option and Result.
- `ByteInt` covers `BigInteger(1, bytes)`, `toByteArray()` and `bitLength()`.
- `Base64` covers `java.util.Base64`: both alphabets, the padded and the
  unpadded encoder, and the decoder's acceptance rules.
- `Der` covers the DER encoding of the RSA SubjectPublicKeyInfo and a
  reader for it.
- `Pem` covers the armour, the 64-character line split and a reference
  reader.
- `JsonValues` covers JSON values and the `(String) map.get(name)` cast.
- `CalloutBase` covers the shared helpers, the flow context as a class,
  and the catch blocks.
- `JwkToPem` covers `transform` and `execute` of the JWK-to-PEM callout.
- `TransformJwks` covers `x5cToCert`, `encode`, the `transform` loop and
  `execute` of the JWKS callout.

The host's collaborators are parameters of the model:

- JSON parsing is a `JsonReader` function and serialisation a `JsonWriter`.
- Certificate parsing is a `CertificateParser` function.
- Stack-trace text is an `Exception -> string` function.
- What `transform` throws on a null document is an `Exception` value,
  `readNull`. It is whatever `JavaxJson.fromJson(null, Map.class)` throws,
  or the NullPointerException of `map.get("keys")` should it return null.

Every property is proved for all values of these parameters.

Where the specification of the system and the code disagree, the model
follows the code:

- The specification has the JWKS normaliser write `n` and `e` as unpadded
  base64url magnitudes. The code writes `toByteArray()` in padded standard
  base64. This is the first finding below.
- The specification has the normaliser act only when `n` and `e` are
  missing. The code overwrites them on every RSA entry with a non-empty
  `x5c` chain, whatever they held.

## Model

| member | source | states |
|---|---|---|
| CalloutBase.GenericizeMap | callout/src/main/java/com/google/apigee/callouts/CalloutBase.java:38-50 | the result holds exactly the entries whose key and value are both strings, with their values |
| CalloutBase.VarNameInjective | callout/src/main/java/com/google/apigee/callouts/CalloutBase.java:52-54 | the `jwks_` prefix keeps distinct suffixes distinct, so the three error variables never collide |
| CalloutBase.LeadingBlanks | callout/src/main/java/com/google/apigee/callouts/CalloutBase.java:59 | the count of leading characters at or below U+0020, stopping at the first other character |
| CalloutBase.TrailingBlanks | callout/src/main/java/com/google/apigee/callouts/CalloutBase.java:59 | the count of trailing characters at or below U+0020, stopping at the last other character |
| CalloutBase.Trim | callout/src/main/java/com/google/apigee/callouts/CalloutBase.java:59 | String.trim: the infix that starts after the leading blanks and leaves only blanks after it; empty iff every character is blank, otherwise starting and ending with a non-blank |
| CalloutBase.TrimIdempotent | callout/src/main/java/com/google/apigee/callouts/CalloutBase.java:59 | trimming twice is trimming once |
| CalloutBase.Lowercase | callout/src/main/java/com/google/apigee/callouts/CalloutBase.java:72 | same length, every character mapped to its ASCII lower case |
| CalloutBase.GetDebug | callout/src/main/java/com/google/apigee/callouts/CalloutBase.java:70-74 | debug is on iff the `debug` property exists and equals "true" ignoring case |
| CalloutBase.NameEnd | callout/src/main/java/com/google/apigee/callouts/CalloutBase.java:30 | the end of the run of `[^{} ]` characters stays within the text |
| CalloutBase.NameEndFacts | callout/src/main/java/com/google/apigee/callouts/CalloutBase.java:30 | the run holds only name characters, and it stops at the end of the text or at a brace or space |
| CalloutBase.ClosingBrace | callout/src/main/java/com/google/apigee/callouts/CalloutBase.java:30 | a closing brace found lies at or after the starting position |
| CalloutBase.ClosingBraceFacts | callout/src/main/java/com/google/apigee/callouts/CalloutBase.java:30 | the brace found is reached over name characters only, and when none is found no `}` is reachable that way |
| CalloutBase.ReferenceFrom | callout/src/main/java/com/google/apigee/callouts/CalloutBase.java:30 | a reference opening at p closes at least two characters later, inside the text |
| CalloutBase.ReferenceStartFacts | callout/src/main/java/com/google/apigee/callouts/CalloutBase.java:29-30 | at position 0 the matcher finds exactly the `{name}` the text starts with, with a first name character that is not `:`, and reports none when there is no such reference |
| CalloutBase.ReferenceEndsUnique | callout/src/main/java/com/google/apigee/callouts/CalloutBase.java:30 | the reluctant `*?` leaves only one possible closing brace for a reference |
| CalloutBase.NoBraceNoReference | callout/src/main/java/com/google/apigee/callouts/CalloutBase.java:30 | text without `{` contains no reference |
| CalloutBase.IndexOf | callout/src/main/java/com/google/apigee/callouts/CalloutBase.java:90 | a position found lies in range |
| CalloutBase.IndexOfFacts | callout/src/main/java/com/google/apigee/callouts/CalloutBase.java:90 | the position found holds the character and none before it does; none found means the character does not occur |
| CalloutBase.SubstituteCases | callout/src/main/java/com/google/apigee/callouts/CalloutBase.java:89-96 | `split(":", 2)`: the variable's value when it is set, else the text after the first colon, else nothing |
| CalloutBase.FirstColon | callout/src/main/java/com/google/apigee/callouts/CalloutBase.java:90 | a colon with no colon before it is where the split happens |
| CalloutBase.ReferenceStartBraced | callout/src/main/java/com/google/apigee/callouts/CalloutBase.java:30 | for text `{name}rest` with a well-formed name the reference closes right after the name |
| CalloutBase.ResolveAtReference | callout/src/main/java/com/google/apigee/callouts/CalloutBase.java:86-98 | `{name}rest` resolves to the replacement of name, then rest resolved |
| CalloutBase.ResolveReferenceStep | callout/src/main/java/com/google/apigee/callouts/CalloutBase.java:86-98 | text that opens with a reference resolves to its replacement followed by the rest resolved |
| CalloutBase.ResolveCopyStep | callout/src/main/java/com/google/apigee/callouts/CalloutBase.java:86-99 | text that does not open with a reference keeps its first character |
| CalloutBase.ResolvePlainChar | callout/src/main/java/com/google/apigee/callouts/CalloutBase.java:86-99 | a leading character other than `{` is copied unchanged |
| CalloutBase.ResolvePlainPrefix | callout/src/main/java/com/google/apigee/callouts/CalloutBase.java:86-99 | a brace-free prefix is copied through ahead of whatever follows it |
| CalloutBase.ResolveReference | callout/src/main/java/com/google/apigee/callouts/CalloutBase.java:86-98 | `a{name}b` with brace-free `a` resolves to a, the replacement, then b resolved |
| CalloutBase.ResolveNoReference | callout/src/main/java/com/google/apigee/callouts/CalloutBase.java:83-100 | text without a well-formed reference comes back unchanged |
| CalloutBase.TokenFrom | callout/src/main/java/com/google/apigee/callouts/CalloutBase.java:86-98 | each token the matcher consumes advances the position by at least one |
| CalloutBase.ResolveFromReference | callout/src/main/java/com/google/apigee/callouts/CalloutBase.java:86-98 | at a position where a reference opens, its replacement is followed by what comes after the closing brace |
| CalloutBase.ResolveFromCopy | callout/src/main/java/com/google/apigee/callouts/CalloutBase.java:86-99 | at a position where no reference opens, the character is copied |
| CalloutBase.SuffixAgrees | callout/src/main/java/com/google/apigee/callouts/CalloutBase.java:84-86 | a suffix is the same text as the original from its offset on |
| CalloutBase.SliceAgree | callout/src/main/java/com/google/apigee/callouts/CalloutBase.java:88-89 | agreeing texts have equal slices at shifted positions |
| CalloutBase.NameEndAgree | callout/src/main/java/com/google/apigee/callouts/CalloutBase.java:30 | the name run ends at the same shifted position in agreeing texts |
| CalloutBase.ReferenceFromAgree | callout/src/main/java/com/google/apigee/callouts/CalloutBase.java:30 | matching is shift-invariant: a reference opens and closes at the same shifted positions |
| CalloutBase.ResolveFromAgree | callout/src/main/java/com/google/apigee/callouts/CalloutBase.java:86-99 | agreeing texts resolve alike from shifted positions |
| CalloutBase.TokenAgreeReference | callout/src/main/java/com/google/apigee/callouts/CalloutBase.java:86-98 | one reference token resolves alike in agreeing texts |
| CalloutBase.TokenAgreeCopy | callout/src/main/java/com/google/apigee/callouts/CalloutBase.java:86-99 | one copied character resolves alike in agreeing texts |
| CalloutBase.ResolveSuffix | callout/src/main/java/com/google/apigee/callouts/CalloutBase.java:86-99 | resolving the text from p is resolving the suffix that starts at p |
| CalloutBase.CopyUntilReference | callout/src/main/java/com/google/apigee/callouts/CalloutBase.java:86-99 | a stretch where no reference opens is copied verbatim, as group(1) and appendTail do |
| CalloutBase.ResolveAt | callout/src/main/java/com/google/apigee/callouts/CalloutBase.java:86-97 | one `find()`: the text before the match, the replacement, then the rest resolved |
| CalloutBase.ResolveTail | callout/src/main/java/com/google/apigee/callouts/CalloutBase.java:99 | after the last match the remaining text is appended unchanged |
| CalloutBase.ResolveStep | callout/src/main/java/com/google/apigee/callouts/CalloutBase.java:86-98 | the buffer plus the rest resolved stays equal to the whole text resolved, after each iteration |
| CalloutBase.FindReference | callout/src/main/java/com/google/apigee/callouts/CalloutBase.java:86 | `matcher.find()` returns the first position from `from` where a reference opens, with its closing brace, or reports that none opens |
| CalloutBase.ResolveVariableReferences | callout/src/main/java/com/google/apigee/callouts/CalloutBase.java:82-101 | the loop over `find()` computes Resolve: every reference replaced, all other text copied in order |
| CalloutBase.ResolvedProperty | callout/src/main/java/com/google/apigee/callouts/CalloutBase.java:56-68 | absent, blank or resolving to "" gives null; otherwise the trimmed value with its references resolved |
| CalloutBase.GetSourcePlainName | callout/src/main/java/com/google/apigee/callouts/CalloutBase.java:56-68 | a blank-padded plain variable name is read back as that name |
| CalloutBase.Describe | callout/src/main/java/com/google/apigee/callouts/CalloutBase.java:111 | Throwable.toString: the class name, followed by ": message" only when there is a message |
| CalloutBase.FlattenNewlines | callout/src/main/java/com/google/apigee/callouts/CalloutBase.java:111 | same length, no newline left, every other character kept |
| CalloutBase.FirstSeparator | callout/src/main/java/com/google/apigee/callouts/CalloutBase.java:31 | the leftmost `[:;] ` split point with text on both sides, none before it |
| CalloutBase.ErrorDetail | callout/src/main/java/com/google/apigee/callouts/CalloutBase.java:113-118 | on a one-line text, exactly what follows the first `: ` or `; ` that has text on both sides, as the reluctant `^(.+?)[:;] (.+)$` selects; the whole text when there is no such separator or when a line terminator defeats `.`; never empty for non-empty text |
| CalloutBase.WithExceptionVariables | callout/src/main/java/com/google/apigee/callouts/CalloutBase.java:110-119 | adds `jwks_exception` (flattened description) and `jwks_error` (its detail) and changes no other variable |
| CalloutBase.FlattenWithoutNewlines | callout/src/main/java/com/google/apigee/callouts/CalloutBase.java:111 | text without newlines is not changed by the flattening |
| CalloutBase.OneLineAppend | callout/src/main/java/com/google/apigee/callouts/CalloutBase.java:111 | joining one-line texts gives a one-line text |
| CalloutBase.ErrorDetailOfDescription | callout/src/main/java/com/google/apigee/callouts/CalloutBase.java:113-115 | for "Class: message" with a plain class name the error is exactly the message |
| CalloutBase.PlainClassName | callout/src/main/java/com/google/apigee/callouts/CalloutBase.java:31 | a Java class name holds no separator character and no line break |
| CalloutBase.MessageIsError | callout/src/main/java/com/google/apigee/callouts/CalloutBase.java:110-119 | an exception with a one-line message records that message in `jwks_error` |
| CalloutBase.ClassNameIsError | callout/src/main/java/com/google/apigee/callouts/CalloutBase.java:110-119 | an exception without a message records its class name in `jwks_error` |
| CalloutBase.IllegalStateError | callout/src/main/java/com/google/apigee/callouts/CalloutBase.java:110-119 | an IllegalStateException records its own message as the error |
| CalloutBase.MessageContext.constructor | callout/src/main/java/com/google/apigee/callouts/CalloutBase.java:89-91 | the context starts with the given variables |
| CalloutBase.MessageContext.GetVariable | callout/src/main/java/com/google/apigee/callouts/CalloutBase.java:91 | null exactly when the variable is unset, otherwise its value |
| CalloutBase.MessageContext.SetVariable | callout/src/main/java/com/google/apigee/callouts/CalloutBase.java:112 | the one variable is set, all others are kept |
| CalloutBase.SetExceptionVariables | callout/src/main/java/com/google/apigee/callouts/CalloutBase.java:110-119 | the context afterwards is WithExceptionVariables of the context before |
| CalloutBase.AfterCatch | callout/src/main/java/com/google/apigee/callouts/JwkToPem.java:102-112 | an exception the `catch (IllegalStateException ...)` takes (that class or any subclass), or any exception with debug off, only sets the exception variables; otherwise `jwks_stacktrace` is written first |
| CalloutBase.Catch | callout/src/main/java/com/google/apigee/callouts/JwkToPem.java:102-112 | both catch blocks return ABORT and leave the context AfterCatch describes |
| JsonValues.StringMember | callout/src/main/java/com/google/apigee/callouts/JwkToPem.java:53-54 | an absent or JSON-null member casts to null, a JSON string to its text, anything else fails the cast |
| Base64.ValueOf | callout/src/main/java/com/google/apigee/callouts/JwkToPem.java:59-60 | a character the decoder accepts has exactly one 6-bit value, and '=' has none |
| Base64.ValueOfCharOf | callout/src/main/java/com/google/apigee/callouts/JwkToPem.java:59-60 | decoding a character of the alphabet gives back its value |
| Base64.ToSextets | callout/src/main/java/com/google/apigee/callouts/JwkToPem.java:70 | four sextets per three bytes, plus two or three for a final one or two bytes |
| Base64.Chars | callout/src/main/java/com/google/apigee/callouts/JwkToPem.java:70 | one alphabet character per sextet, in order |
| Base64.SextetsOf | callout/src/main/java/com/google/apigee/callouts/JwkToPem.java:59-60 | when every character is in the alphabet, one sextet per character |
| Base64.PadStart | callout/src/main/java/com/google/apigee/callouts/JwkToPem.java:59-60 | the position of the first '=', or the end when there is none |
| Base64.SextetsRoundTrip | callout/src/main/java/com/google/apigee/callouts/JwkToPem.java:59-60 | regrouping the sextets gives back the bytes |
| Base64.CharsRoundTrip | callout/src/main/java/com/google/apigee/callouts/JwkToPem.java:59-60 | reading back the characters gives the sextets |
| Base64.SextetsOfRejects | callout/src/main/java/com/google/apigee/callouts/JwkToPem.java:59-60 | one character outside the alphabet fails the whole text |
| Base64.PadStartAfter | callout/src/main/java/com/google/apigee/callouts/JwkToPem.java:59-60 | padding appended to '='-free data starts right after the data |
| Base64.SextetCount | callout/src/main/java/com/google/apigee/callouts/JwkToPem.java:59-60 | an encoding never leaves a single character in its last group, so the decoder accepts it |
| Base64.DecodeEncode | callout/src/main/java/com/google/apigee/callouts/JwkToPem.java:59-60 | the decoder gives back exactly the bytes the encoder was given, padded or not, in either alphabet |
| Base64.PaddedLength | callout/src/main/java/com/google/apigee/callouts/JwkToPem.java:70 | the padded encoding is 4 * ceil(n / 3) characters long |
| Base64.UrlDecodeRejectsStandardOnlyChars | callout/src/main/java/com/google/apigee/callouts/JwkToPem.java:59-60 | the URL-safe decoder throws on any '+' or '/' |
| Base64.EncodeOne | callout/src/main/java/com/google/apigee/callouts/TransformJwks.java:140 | one byte gives two characters, then "==" when padded |
| Base64.EncodeTwo | callout/src/main/java/com/google/apigee/callouts/TransformJwks.java:140 | two bytes give three characters, then "=" when padded |
| Base64.EncodeThree | callout/src/main/java/com/google/apigee/callouts/TransformJwks.java:140 | three bytes give four characters and no padding |
| Base64.ToSextetsAppend | callout/src/main/java/com/google/apigee/callouts/JwkToPem.java:70 | splitting after a multiple of three bytes splits the sextets |
| Base64.CharsAppend | callout/src/main/java/com/google/apigee/callouts/JwkToPem.java:70 | characters of joined sextets are the joined characters |
| Base64.PaddingShift | callout/src/main/java/com/google/apigee/callouts/JwkToPem.java:70 | the padding depends only on the byte count modulo three |
| Base64.EncodeAppend | callout/src/main/java/com/google/apigee/callouts/JwkToPem.java:70 | the encoding of x + y with three dividing `|x|` is the encoding of x followed by that of y |
| ByteInt.BigEndian | callout/src/main/java/com/google/apigee/callouts/TransformJwks.java:139 | exactly k bytes |
| ByteInt.ToByteArray | callout/src/main/java/com/google/apigee/callouts/TransformJwks.java:139 | BigInteger.toByteArray of a non-negative value: bitLength/8 + 1 bytes, a first byte below 0x80, no redundant leading byte, and read either signed or unsigned it is the value |
| ByteInt.MagnitudeBytes | callout/src/main/java/com/google/apigee/callouts/TransformJwks.java:139 | the minimal unsigned bytes: no leading zero, ceil(bitLength / 8) long, reading back as the value |
| ByteInt.WeightedSumSnoc | callout/src/main/java/com/google/apigee/callouts/JwkToPem.java:62-63 | appending a byte multiplies the positional sum by 256 and adds the byte |
| ByteInt.UnsignedIsWeightedSum | callout/src/main/java/com/google/apigee/callouts/JwkToPem.java:62-63 | `new BigInteger(1, b)` equals the sum of b[i] * 256^(n-1-i) |
| ByteInt.UnsignedHead | callout/src/main/java/com/google/apigee/callouts/JwkToPem.java:62-63 | the first byte weighs 256^(n-1) |
| ByteInt.UnsignedLeadingZeros | callout/src/main/java/com/google/apigee/callouts/JwkToPem.java:62-63 | leading zero bytes do not change the magnitude |
| ByteInt.UnsignedBounds | callout/src/main/java/com/google/apigee/callouts/JwkToPem.java:62-63 | n bytes read below 256^n, and at least first byte * 256^(n-1) |
| ByteInt.SignedUnsigned | callout/src/main/java/com/google/apigee/callouts/JwkToPem.java:62-63 | signed and unsigned readings agree below 0x80 and differ by 256^n above, which is why the signum 1 matters |
| ByteInt.BigEndianValue | callout/src/main/java/com/google/apigee/callouts/TransformJwks.java:139 | a value below 256^k written in k bytes reads back as itself |
| ByteInt.BitLengthBounds | callout/src/main/java/com/google/apigee/callouts/TransformJwks.java:139 | 2^(bitLength-1) <= v < 2^bitLength |
| ByteInt.BitLengthUnique | callout/src/main/java/com/google/apigee/callouts/TransformJwks.java:139 | bitLength is the only k with those bounds |
| ByteInt.TopByteBelow | callout/src/main/java/com/google/apigee/callouts/TransformJwks.java:139 | a value bounded by c * 256^(k-1) has a first byte below c |
| ByteInt.TopByteAbove | callout/src/main/java/com/google/apigee/callouts/TransformJwks.java:139 | a value of at least 256^(k-1) has a non-zero first byte |
| ByteInt.ToByteArrayValue | callout/src/main/java/com/google/apigee/callouts/TransformJwks.java:139 | the two's-complement bytes read back as the value |
| ByteInt.ValueBelowTop | callout/src/main/java/com/google/apigee/callouts/TransformJwks.java:139 | a first byte below c bounds the value by c * 256^(k-1) |
| ByteInt.TopByteAtLeast | callout/src/main/java/com/google/apigee/callouts/TransformJwks.java:139 | a value of at least c * 256^(k-1) has a first byte of at least c |
| ByteInt.ToByteArrayMinimal | callout/src/main/java/com/google/apigee/callouts/TransformJwks.java:139 | the first byte is below 0x80 and no shorter form exists |
| ByteInt.ToByteArrayFacts | callout/src/main/java/com/google/apigee/callouts/TransformJwks.java:139 | the minimal two's-complement form, summarised |
| ByteInt.MagnitudeFacts | callout/src/main/java/com/google/apigee/callouts/TransformJwks.java:139 | the magnitude is toByteArray without its sign byte, when there is one |
| Der.ByteCountBound | callout/src/main/java/com/google/apigee/callouts/JwkToPem.java:65-68 | the long-form length octets are enough to hold the length |
| Der.LengthRoundTrip | callout/src/main/java/com/google/apigee/callouts/JwkToPem.java:65-68 | definite length octets read back as the length and leave what follows |
| Der.TlvRoundTrip | callout/src/main/java/com/google/apigee/callouts/JwkToPem.java:65-68 | a TLV reads back as its content and leaves what follows |
| Der.RsaPublicKeyRoundTrip | callout/src/main/java/com/google/apigee/callouts/JwkToPem.java:65-68 | RSAPublicKey reads back as (n, e) |
| Der.LongHeader | callout/src/main/java/com/google/apigee/callouts/JwkToPem.java:65-68 | a two-octet long-form header is four bytes |
| Der.LongFormTlv | callout/src/main/java/com/google/apigee/callouts/JwkToPem.java:65-68 | content of 256 to 65535 bytes is written as the tag, 0x82 and the two length bytes, then the content |
| Der.SpkiDerLongForm | callout/src/main/java/com/google/apigee/callouts/JwkToPem.java:65-68 | for RSAPublicKey content of 256 to 65511 bytes (moduli from about 2000 bits), getEncoded is the 4-byte SEQUENCE header, the fixed rsaEncryption AlgorithmIdentifier, the BIT STRING header with no unused bits, the RSAPublicKey SEQUENCE header, then the two INTEGERs: 28 bytes more than the key content |
| Der.SpkiRoundTrip | callout/src/main/java/com/google/apigee/callouts/JwkToPem.java:65-68 | every SubjectPublicKeyInfo produced reads back as the modulus and exponent it was built from |
| Pem.BodyLines | callout/src/main/java/com/google/apigee/callouts/JwkToPem.java:71-72 | the `.{1,64}` matches: lines of 1 to 64 characters, all but the last full, ceil(n / 64) of them, joining back to the text |
| Pem.LinesFrom | callout/src/main/java/com/google/apigee/callouts/JwkToPem.java:71-72 | the same for the text from position p on |
| Pem.BodyLineAt | callout/src/main/java/com/google/apigee/callouts/JwkToPem.java:71-72 | line i is the i-th run of 64 characters, the last one possibly shorter |
| Pem.LineFromAt | callout/src/main/java/com/google/apigee/callouts/JwkToPem.java:71-72 | line i from p starts 64 * i characters after p |
| Pem.Armor | callout/src/main/java/com/google/apigee/callouts/JwkToPem.java:73-74 | the PEM starts with the BEGIN line and ends with the END line |
| Pem.RemoveNewlinesAppend | callout/src/main/java/com/google/apigee/callouts/JwkToPem.java:73-74 | removing newlines distributes over concatenation |
| Pem.RemoveNewlinesNone | callout/src/main/java/com/google/apigee/callouts/JwkToPem.java:73-74 | text without newlines is unchanged |
| Pem.RemoveNewlinesTerminate | callout/src/main/java/com/google/apigee/callouts/JwkToPem.java:73-74 | `replaceAll("$0\n")` only adds newlines: removing them gives the joined lines |
| Pem.RemoveNewlinesLine | callout/src/main/java/com/google/apigee/callouts/JwkToPem.java:73-74 | one terminated line loses only its newline |
| Pem.ConcatChars | callout/src/main/java/com/google/apigee/callouts/JwkToPem.java:71-72 | every character of a line is a character of the joined text |
| Pem.UnwrapWrap | callout/src/main/java/com/google/apigee/callouts/JwkToPem.java:71-74 | removing the newlines from the wrapped body gives back the body |
| Pem.NoNewlineInBase64 | callout/src/main/java/com/google/apigee/callouts/JwkToPem.java:70-72 | base64 text holds no line terminator, so `.` matches every character of it |
| Pem.ArmorBody | callout/src/main/java/com/google/apigee/callouts/JwkToPem.java:70-74 | the body is a multiple of 4 characters and decodes to the DER bytes |
| Pem.DearmorArmor | callout/src/main/java/com/google/apigee/callouts/JwkToPem.java:68-75 | the armour reads back as exactly the DER bytes it was built from |
| JwkToPem.DecodeMember | callout/src/main/java/com/google/apigee/callouts/JwkToPem.java:59-60 | a null member throws NullPointerException; a string succeeds iff the URL-safe decoder accepts it, with exactly its bytes |
| JwkToPem.Transform | callout/src/main/java/com/google/apigee/callouts/JwkToPem.java:51-76 | a result is always a PEM block: BEGIN line first, END line last |
| JwkToPem.TransformNeedsBothMembers | callout/src/main/java/com/google/apigee/callouts/JwkToPem.java:53-60 | without `n` or `e`, absent or null, transform throws |
| JwkToPem.TransformRejectsStandardAlphabet | callout/src/main/java/com/google/apigee/callouts/JwkToPem.java:59 | an `n` containing '+' or '/' makes transform throw |
| JwkToPem.TransformReadsBack | callout/src/main/java/com/google/apigee/callouts/JwkToPem.java:51-76 | with decodable members transform succeeds iff the key is encodable, and then the PEM reads back as the SubjectPublicKeyInfo whose modulus and exponent are the members read as unsigned big-endian numbers |
| JwkToPem.TransformOfStrings | callout/src/main/java/com/google/apigee/callouts/JwkToPem.java:51-76 | with decodable members the PEM is the armour of the key's DER, and transform fails only when there is no DER |
| JwkToPem.TransformOfEncodedKey | callout/src/main/java/com/google/apigee/callouts/JwkToPem.java:51-76 | members written as unpadded base64url of some bytes produce a PEM for the key those bytes denote |
| JwkToPem.TransformOfDecodedMembers | callout/src/main/java/com/google/apigee/callouts/JwkToPem.java:51-76 | the same, stated as the exact PEM text |
| JwkToPem.TransformLayout | callout/src/main/java/com/google/apigee/callouts/JwkToPem.java:70-74 | the body lines are at most 64 characters and all but the last are full; unwrapped, the body is padded standard base64 that decodes to the DER |
| JwkToPem.ExponentAQAB | callout/src/test/java/com/google/apigee/callouts/JwkToPemTest.java:76-110 | the test exponent "AQAB" decodes to 01 00 01, which is 65537 |
| CalloutBase.NullSourceOnOneLine | callout/src/main/java/com/google/apigee/callouts/JwkToPem.java:91 | the unset-source message fits on one line, so it is recorded whole as the error |
| JwkToPem.ExponentTlv | callout/src/main/java/com/google/apigee/callouts/JwkToPem.java:65-68 | 65537 is written as the INTEGER 02 03 01 00 01 |
| JwkToPem.ModulusTlv | callout/src/main/java/com/google/apigee/callouts/JwkToPem.java:65-68 | a 4096-bit modulus is an INTEGER of 513 content bytes |
| JwkToPem.ModulusSignByte | callout/src/main/java/com/google/apigee/callouts/JwkToPem.java:62-66 | a 4096-bit modulus carries a leading zero sign byte in DER |
| JwkToPem.SpkiDer4096 | callout/src/main/java/com/google/apigee/callouts/JwkToPem.java:65-68 | any 4096-bit key with exponent 65537 has a 550-byte DER: a fixed prefix, the modulus bytes, the exponent |
| JwkToPem.Body4096 | callout/src/main/java/com/google/apigee/callouts/JwkToPem.java:70 | such a key's base64 is 736 characters, with a fixed first 44 and "AwEAAQ==" as the last 8 |
| JwkToPem.SuffixBase64 | callout/src/main/java/com/google/apigee/callouts/JwkToPem.java:70 | the exponent's last four bytes encode to "AwEAAQ==" |
| JwkToPem.Lines736 | callout/src/main/java/com/google/apigee/callouts/JwkToPem.java:71-74 | 736 characters break into eleven lines of 64 and a last one of 32 |
| JwkToPem.TestKeyTransform | callout/src/test/java/com/google/apigee/callouts/JwkToPemTest.java:76-110 | the test's key shape (4096-bit `n`, `e` = "AQAB") converts to the armour of its DER |
| JwkToPem.TestKeyPem | callout/src/test/java/com/google/apigee/callouts/JwkToPemTest.java:76-110 | that PEM has twelve body lines, eleven of 64 characters and one of 32, starting and ending as the expected block does |
| JwkToPem.ExecuteWithoutSource | callout/src/main/java/com/google/apigee/callouts/JwkToPem.java:79-104 | with no usable `source` property the callout aborts, `jwks_error` is "source not specified", and no stack trace is written |
| JwkToPem.ExecuteWithUnsetSource | callout/src/main/java/com/google/apigee/callouts/JwkToPem.java:89-104 | an unset source variable aborts with "source variable resolves to null" and no stack trace |
| JwkToPem.ExecuteSuccess | callout/src/main/java/com/google/apigee/callouts/JwkToPem.java:84-101 | on success the PEM is written to the destination variable, or `jwks_pem` when none is configured, and nothing else changes |
| JwkToPem.ExecuteDefaultDestination | callout/src/test/java/com/google/apigee/callouts/JwkToPemTest.java:76-110 | the test configuration (`debug`, `source` = jwk1) writes the PEM to `jwks_pem` and records no error |
| JwkToPem.TestProperties | callout/src/test/java/com/google/apigee/callouts/JwkToPemTest.java:76-110 | that configuration's source resolves to "jwk1" and it has no destination |
| JwkToPem.JwkToPemCallout.constructor | callout/src/main/java/com/google/apigee/callouts/JwkToPem.java:33-35 | the properties are exactly the string entries of the raw map |
| JwkToPem.JwkToPemCallout.Execute | callout/src/main/java/com/google/apigee/callouts/JwkToPem.java:78-113 | result and new context are the Outcome of the properties and the old context |
| TransformJwks.CertificateFailure | callout/src/main/java/com/google/apigee/callouts/TransformJwks.java:133-134 | a parse failure becomes a java.lang.Exception whose message is the fixed prefix followed by the cause's description |
| TransformJwks.X5cToCertOfEncoded | callout/src/main/java/com/google/apigee/callouts/TransformJwks.java:126-136 | a chain element in standard base64 reaches the factory as exactly its DER; a certificate comes back with its key, a null certificate as none, a CertificateException wrapped with the fixed prefix, any other exception unchanged |
| TransformJwks.PrefixOnOneLine | callout/src/main/java/com/google/apigee/callouts/TransformJwks.java:134 | the wrapper message holds no line terminator |
| TransformJwks.CertificateFailureRecorded | callout/src/main/java/com/google/apigee/callouts/TransformJwks.java:171-180 | the recorded error for a certificate failure is the prefix followed by the cause's description |
| TransformJwks.EncodeReadsBack | callout/src/main/java/com/google/apigee/callouts/TransformJwks.java:138-141 | encode gives padded standard base64 of the minimal two's-complement bytes, which read back as the value |
| TransformJwks.EncodeUnsignedReadsBack | callout/src/main/java/com/google/apigee/callouts/TransformJwks.java:138-141 | the corrected encoding decodes with the URL-safe decoder to the minimal magnitude of the value, and holds no '=', '+' or '/' |
| TransformJwks.UnpaddedUrlAlphabet | callout/src/main/java/com/google/apigee/callouts/TransformJwks.java:140 | unpadded base64url text holds no '=', '+' or '/' |
| TransformJwks.EncodeOf2048BitModulus | callout/src/main/java/com/google/apigee/callouts/TransformJwks.java:138-141 | as written, a 2048-bit modulus becomes 257 bytes with a sign byte and 344 padded characters, where 256 bytes and 342 characters are intended |
| TransformJwks.EncodeKeepsSignByte | callout/src/main/java/com/google/apigee/callouts/TransformJwks.java:138-141 | encode(128) is "AIA=", reading back as 00 80, while the intended "gA" reads back as 80 |
| TransformJwks.BytesOf128 | callout/src/main/java/com/google/apigee/callouts/TransformJwks.java:139 | 128 needs a sign byte in two's complement and none as a magnitude |
| TransformJwks.NormalizeKeyLeavesNonRsa | callout/src/main/java/com/google/apigee/callouts/TransformJwks.java:148-149 | an entry whose `kty` is not exactly "RSA" is left unchanged |
| TransformJwks.NormalizeKeyWithoutChain | callout/src/main/java/com/google/apigee/callouts/TransformJwks.java:150-151 | an RSA entry with an absent, null or empty `x5c` is left unchanged |
| TransformJwks.NormalizeKeyWritesFirstCertificate | callout/src/main/java/com/google/apigee/callouts/TransformJwks.java:150-157 | an RSA entry with a chain succeeds iff the first element is a string that parses to an RSA key, and then `n` and `e` hold the encoded modulus and exponent |
| TransformJwks.NormalizeKeyChangesOnlyModulusAndExponent | callout/src/main/java/com/google/apigee/callouts/TransformJwks.java:146-159 | no member is removed, and only `n` and `e` can change or appear |
| TransformJwks.NormalizeKeyFailures | callout/src/main/java/com/google/apigee/callouts/TransformJwks.java:147-156 | a null entry, or a null certificate from the factory, throws NullPointerException; a non-object, a non-string `kty` or a non-RSA key throws ClassCastException; a decoding or parsing failure propagates |
| TransformJwks.EmptyCertificateIsNullPointer | callout/src/main/java/com/google/apigee/callouts/TransformJwks.java:127-154 | an empty first chain element for which the factory returns no certificate fails with a bare NullPointerException, not the wrapped message |
| TransformJwks.FirstCertificateOnly | callout/src/main/java/com/google/apigee/callouts/TransformJwks.java:153 | certificates after the first never affect the outcome |
| TransformJwks.NormalizeKeyIdempotent | callout/src/main/java/com/google/apigee/callouts/TransformJwks.java:146-159 | normalising an entry twice is normalising it once |
| TransformJwks.NormalizeAllEach | callout/src/main/java/com/google/apigee/callouts/TransformJwks.java:146-159 | the loop succeeds iff every entry does, keeping the count and order with each entry normalised alone; otherwise it throws the first failing entry's exception |
| TransformJwks.NormalizeAllPrefix | callout/src/main/java/com/google/apigee/callouts/TransformJwks.java:146-159 | once an entry fails, the entries after it make no difference |
| TransformJwks.NormalizeAllIdempotent | callout/src/main/java/com/google/apigee/callouts/TransformJwks.java:146-159 | normalising the normalised list changes nothing |
| TransformJwks.NormalizeJwksEnvelope | callout/src/main/java/com/google/apigee/callouts/TransformJwks.java:144-161 | a missing or null `keys` throws NullPointerException, a non-list `keys` ClassCastException; on success every other member is kept and `keys` keeps its length, each entry normalised |
| TransformJwks.NormalizeJwksIdempotent | callout/src/main/java/com/google/apigee/callouts/TransformJwks.java:143-162 | running the normaliser on its output changes nothing |
| TransformJwks.Transform | callout/src/main/java/com/google/apigee/callouts/TransformJwks.java:143-162 | the in-place loop over `keys` computes TransformText: read, normalise each entry, write back |
| TransformJwks.SourceDefaultsToMessageContent | callout/src/main/java/com/google/apigee/callouts/TransformJwks.java:184-187 | with no usable `source` property the document is read from `message.content` |
| TransformJwks.ExecuteWritesBack | callout/src/main/java/com/google/apigee/callouts/TransformJwks.java:189-199 | on success the normalised document replaces the text of the very variable it came from, and nothing else changes |
| TransformJwks.ExecuteFailureKeepsSource | callout/src/main/java/com/google/apigee/callouts/TransformJwks.java:200-210 | any failure aborts, and every variable other than the three error variables is kept |
| TransformJwks.NullPointerRecorded | callout/src/main/java/com/google/apigee/callouts/TransformJwks.java:171-180 | a NullPointerException without a message records its class name as the error |
| TransformJwks.ExecuteUnsetSourceAsWritten | callout/src/main/java/com/google/apigee/callouts/TransformJwks.java:184-209 | as written, an unset source with debug on aborts and writes the stack trace of what reading the null document throws, for any exception that is not an IllegalStateException or a subclass of it; when that exception has no message, as a NullPointerException here, the error is its class name, not "source variable resolves to null" |
| TransformJwks.ExecuteUnsetSourceIllegalState | callout/src/main/java/com/google/apigee/callouts/TransformJwks.java:184-202 | when reading the null document throws an IllegalStateException or a subclass, the first catch takes it: ABORT and no stack trace is written |
| TransformJwks.ClassNameIsNotNullSourceMessage | callout/src/main/java/com/google/apigee/callouts/TransformJwks.java:176-178 | no Java class name equals the text "source variable resolves to null", since class names hold no space |
| TransformJwks.ExecuteUnsetSourceCorrected | callout/src/test/java/com/google/apigee/callouts/TransformJwksTest.java:39-82 | with the null check, an unset source aborts with "source variable resolves to null" and no stack trace, as the tests expect |
| TransformJwks.TransformJwksCallout.constructor | callout/src/main/java/com/google/apigee/callouts/TransformJwks.java:57-59 | the properties are exactly the string entries of the raw map |
| TransformJwks.TransformJwksCallout.Execute | callout/src/main/java/com/google/apigee/callouts/TransformJwks.java:182-211 | result and new context are the Outcome of the properties and the old context |
| TransformJwks.TransformJwksCallout.ExecuteCorrected | callout/src/main/java/com/google/apigee/callouts/TransformJwks.java:182-211 | the corrected execute, with the null check and the base64url magnitude encoding, computes CorrectedOutcome |

## Left out

- TransformJwks duplicates the CalloutBase helpers at TransformJwks.java:52-124 and 164-180, nearly verbatim. The CalloutBase members model both copies once.
- JSON parsing and serialisation (`JavaxJson.fromJson` / `toJson`) are parameters. Every property holds for any reader and writer. What `fromJson(null, Map.class)` does is not known here, so it is the parameter `readNull`.
- X.509 certificate parsing (`CertificateFactory.getInstance("X.509", "BC")` and `generateCertificate`) is a parameter. It has four outcomes:
  - a certificate, whose key is RSA or of another algorithm;
  - no certificate (null), whose dereference then throws NullPointerException;
  - a CertificateException, wrapped with the "Unable to convert" prefix;
  - any other exception, such as NoSuchProviderException, passed on unchanged.
- `getStackTraceAsString` is a parameter: stack-trace text is host-specific.
- The `System.out.printf` debug output of JwkToPem.transform is left out, because it is console I/O.
- JwkToPem.Transform: the KeyFactory provider's own checks (the allowed range of RSA modulus sizes) are not modelled. Transform fails with InvalidKeySpecException only when the DER lengths cannot be written.
- Exception classes are kept as names plus one flag, `isIllegalState`: whether the class is IllegalStateException or a subclass of it, the only subtyping question the catch blocks ask. The rest of the class hierarchy is not modelled.
- The exception types raised by library code (decoder, cast, parser) are kept, but their messages are not: the model gives them no message. The class name stands in for the message.
- The `Message`-typed source branch of TransformJwks.execute (TransformJwks.java:190-198) is not modelled: flow variables are strings. So `Message.setContent` is not modelled either.
- JwkToPem.execute's `jwk == null` check (JwkToPem.java:94-96) is unreachable after the `source == null` check, so it has no counterpart.
- The `ExecutionContext` argument of execute is unused and is left out.
- The regular expression engine is replaced by explicit matchers for the two patterns:
  - variable references: NameEnd, ClosingBrace, ReferenceFrom and FindReference;
  - the error split: FirstSeparator and ErrorDetail.
- JwkToPem.TestKeyPem: the exact 12-line PEM literal of JwkToPemTest is not restated. The lemma proves the line layout, the fixed first 44 characters and the last 8 for every 4096-bit modulus with exponent 65537; the modulus-dependent characters are not compared.
- The tests' HttpFetch helper and the network fetch of a live JWKS (TransformJwksTest noX5c_noop, TransformJwksTest.java:94-112) are left out.

## Findings

| source | as written | input that shows it | evidently intended | confidence | as-written member | corrected member |
|---|---|---|---|---|---|---|
| callout/src/main/java/com/google/apigee/callouts/TransformJwks.java:138-141 | `encode` writes `toByteArray()` (two's complement, with a 0x00 sign byte when the top bit is set) in padded standard base64 | the value 128 is written "AIA=", which reads back as 00 80; a 2048-bit modulus takes 344 characters ending in '=' | the Base64urlUInt form of sections 2 and 6.3.1 of RFC 7518, which JwkToPem.transform itself reads: the unsigned magnitude in unpadded base64url ("gA" for 128, 342 characters for 2048 bits) | high (not executed) | TransformJwks.EncodeKeepsSignByte | TransformJwks.EncodeUnsignedReadsBack |
| callout/src/main/java/com/google/apigee/callouts/TransformJwks.java:184-193 | execute defaults an absent source to `message.content` and has no null check, so an unset variable reaches `transform` as null | properties `debug` = true and no `source`, with `message.content` unset: a stack trace is written whatever reading the null document throws, and when that is a message-less NullPointerException the error is its class name | the tests noSource and emptySource (TransformJwksTest.java:39-82) expect "source variable resolves to null" and no stack trace, as JwkToPem.execute does at JwkToPem.java:89-92 | high (not executed) | TransformJwks.ExecuteUnsetSourceAsWritten | TransformJwks.ExecuteUnsetSourceCorrected |
