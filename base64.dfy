/**
 * Base64 as java.util.Base64 implements it (RFC 4648): the standard alphabet
 * of section 4 and the URL- and filename-safe alphabet of section 5, an encoder
 * with or without '=' padding, and the decoder, which accepts padding but does
 * not require it.
 */
module Base64 {
  import opened Wrappers
  import opened ByteInt

  datatype Alphabet = Standard | UrlSafe

  /** A 6-bit group, the value carried by one base64 character. */
  type sextet = x: int | 0 <= x < 64

  /** The character for value i: A-Z, a-z, 0-9, then '+' '/' or '-' '_'. */
  function CharOf(a: Alphabet, i: sextet): char
  {
    if i < 26 then ('A' as int + i) as char
    else if i < 52 then ('a' as int + i - 26) as char
    else if i < 62 then ('0' as int + i - 52) as char
    else if i == 62 then (if a == Standard then '+' else '-')
    else (if a == Standard then '/' else '_')
  }

  /** The value of a character of the alphabet, or None for any other character ('=' included). */
  function ValueOf(a: Alphabet, c: char): (r: Option<sextet>)
    ensures r.Some? ==> CharOf(a, r.value) == c
  {
    if 'A' <= c <= 'Z' then Some(c as int - 'A' as int)
    else if 'a' <= c <= 'z' then Some(c as int - 'a' as int + 26)
    else if '0' <= c <= '9' then Some(c as int - '0' as int + 52)
    else if c == (if a == Standard then '+' else '-') then Some(62)
    else if c == (if a == Standard then '/' else '_') then Some(63)
    else None
  }

  lemma ValueOfCharOf(a: Alphabet, i: sextet)
    ensures ValueOf(a, CharOf(a, i)) == Some(i)
  {
  }

  // ---------------------------------------------------------------------
  // Bytes <-> sextets
  // ---------------------------------------------------------------------

  /** The four 6-bit groups of three bytes b0 b1 b2, most significant first. */
  function Group0(b0: byte): sextet { b0 / 4 }
  function Group1(b0: byte, b1: byte): sextet { (b0 % 4) * 16 + b1 / 16 }
  function Group2(b1: byte, b2: byte): sextet { (b1 % 16) * 4 + b2 / 64 }
  function Group3(b2: byte): sextet { b2 % 64 }

  /** The three bytes of four 6-bit groups s0 s1 s2 s3. */
  function Byte0(s0: sextet, s1: sextet): byte { s0 * 4 + s1 / 16 }
  function Byte1(s1: sextet, s2: sextet): byte { (s1 % 16) * 16 + s2 / 4 }
  function Byte2(s2: sextet, s3: sextet): byte { (s2 % 4) * 64 + s3 }

  /** Splits bytes into 6-bit groups, three bytes to four sextets; a final 1 or 2 bytes give 2 or 3 sextets. */
  function ToSextets(b: seq<byte>): (r: seq<sextet>)
    ensures |r| == 4 * (|b| / 3) + (if |b| % 3 == 0 then 0 else |b| % 3 + 1)
    decreases |b|
  {
    if |b| == 0 then []
    else if |b| == 1 then [Group0(b[0]), Group1(b[0], 0)]
    else if |b| == 2 then [Group0(b[0]), Group1(b[0], b[1]), Group2(b[1], 0)]
    else [Group0(b[0]), Group1(b[0], b[1]), Group2(b[1], b[2]), Group3(b[2])] + ToSextets(b[3..])
  }

  /**
   * Reassembles bytes from sextets, four to three; a final 2 or 3 sextets give
   * 1 or 2 bytes and their unused low bits are ignored, as Java's decoder does.
   */
  function FromSextets(s: seq<sextet>): (r: seq<byte>)
    requires |s| % 4 != 1
    decreases |s|
  {
    if |s| == 0 then []
    else if |s| == 2 then [Byte0(s[0], s[1])]
    else if |s| == 3 then [Byte0(s[0], s[1]), Byte1(s[1], s[2])]
    else [Byte0(s[0], s[1]), Byte1(s[1], s[2]), Byte2(s[2], s[3])] + FromSextets(s[4..])
  }

  /** The characters for a sequence of sextets. */
  function Chars(s: seq<sextet>, a: Alphabet): (r: string)
    ensures |r| == |s|
    ensures forall i | 0 <= i < |s| :: r[i] == CharOf(a, s[i])
  {
    if s == [] then [] else [CharOf(a, s[0])] + Chars(s[1..], a)
  }

  /** The sextets for a string, or None when a character is outside the alphabet. */
  function SextetsOf(t: string, a: Alphabet): (r: Option<seq<sextet>>)
    ensures r.Some? ==> |r.value| == |t|
  {
    if t == [] then Some([])
    else match ValueOf(a, t[0])
      case None => None
      case Some(v) => match SextetsOf(t[1..], a)
        case None => None
        case Some(rest) => Some([v] + rest)
  }

  /** The '=' characters the padded encoder appends after n bytes. */
  function Padding(n: nat): string
  {
    if n % 3 == 1 then "==" else if n % 3 == 2 then "=" else ""
  }

  /** Base64.Encoder.encodeToString for the given alphabet, with or without padding. */
  function Encode(b: seq<byte>, a: Alphabet, padded: bool): string
  {
    Chars(ToSextets(b), a) + (if padded then Padding(|b|) else "")
  }

  /** The index of the first '=' of t, or |t| when there is none. */
  function PadStart(t: string): (k: nat)
    ensures k <= |t|
    ensures forall i | 0 <= i < k :: t[i] != '='
    ensures k < |t| ==> t[k] == '='
  {
    if t == [] || t[0] == '=' then 0 else 1 + PadStart(t[1..])
  }

  /** The padding Java's decoder accepts after k data characters. */
  function AcceptedPadding(k: nat): string
  {
    if k % 4 == 2 then "==" else if k % 4 == 3 then "=" else ""
  }

  /**
   * Base64.Decoder.decode(String). Data runs up to the first '='. It fails on a
   * character outside the alphabet, on a dangling single character in the last
   * unit, and on anything after the data other than nothing or the exact padding
   * of the last unit ("==" after two characters, "=" after three).
   */
  function Decode(t: string, a: Alphabet): Option<seq<byte>>
  {
    var k := PadStart(t);
    match SextetsOf(t[..k], a)
    case None => None
    case Some(s) =>
      if k % 4 == 1 then None
      else if t[k..] != "" && t[k..] != AcceptedPadding(k) then None
      else Some(FromSextets(s))
  }

  // ---------------------------------------------------------------------
  // Properties
  // ---------------------------------------------------------------------

  /** One group of three bytes survives the trip through four sextets. */
  lemma GroupRoundTrip(b0: byte, b1: byte, b2: byte)
    ensures Byte0(Group0(b0), Group1(b0, b1)) == b0
    ensures Byte1(Group1(b0, b1), Group2(b1, b2)) == b1
    ensures Byte2(Group2(b1, b2), Group3(b2)) == b2
  {
  }

  lemma ModShift(n: nat)
    ensures (n + 4) % 4 == n % 4
  {
  }

  /** A leading group of four sextets decodes to three bytes ahead of the rest. */
  lemma FromSextetsCons(s0: sextet, s1: sextet, s2: sextet, s3: sextet, rest: seq<sextet>)
    requires |rest| % 4 != 1
    ensures FromSextets([s0, s1, s2, s3] + rest) == [Byte0(s0, s1), Byte1(s1, s2), Byte2(s2, s3)] + FromSextets(rest)
  {
    var s := [s0, s1, s2, s3] + rest;
    ModShift(|rest|);
    assert s[4..] == rest;
  }

  lemma {:induction false} SextetsRoundTrip(b: seq<byte>)
    ensures FromSextets(ToSextets(b)) == b
    decreases |b|
  {
    if |b| >= 3 {
      var s0, s1, s2, s3 := Group0(b[0]), Group1(b[0], b[1]), Group2(b[1], b[2]), Group3(b[2]);
      var t := ToSextets(b[3..]);
      assert ToSextets(b) == [s0, s1, s2, s3] + t;
      FromSextetsCons(s0, s1, s2, s3, t);
      GroupRoundTrip(b[0], b[1], b[2]);
      SextetsRoundTrip(b[3..]);
      assert b == [b[0], b[1], b[2]] + b[3..];
    } else if |b| == 2 {
      assert b == [b[0], b[1]];
      var s := [Group0(b[0]), Group1(b[0], b[1]), Group2(b[1], 0)];
      assert ToSextets(b) == s;
      assert FromSextets(s) == [Byte0(s[0], s[1]), Byte1(s[1], s[2])];
      GroupRoundTrip(b[0], b[1], 0);
    } else if |b| == 1 {
      assert b == [b[0]];
      var s := [Group0(b[0]), Group1(b[0], 0)];
      assert ToSextets(b) == s;
      assert FromSextets(s) == [Byte0(s[0], s[1])];
      GroupRoundTrip(b[0], 0, 0);
    }
  }

  lemma {:induction false} CharsRoundTrip(s: seq<sextet>, a: Alphabet)
    ensures SextetsOf(Chars(s, a), a) == Some(s)
    decreases |s|
  {
    if s != [] {
      var t := Chars(s, a);
      ValueOfCharOf(a, s[0]);
      CharsRoundTrip(s[1..], a);
      assert t[0] == CharOf(a, s[0]);
      assert t[1..] == Chars(s[1..], a);
      assert s == [s[0]] + s[1..];
    }
  }

  lemma {:induction false} SextetsOfRejects(t: string, a: Alphabet, i: nat)
    requires i < |t| && ValueOf(a, t[i]).None?
    ensures SextetsOf(t, a).None?
    decreases i
  {
    if i > 0 {
      SextetsOfRejects(t[1..], a, i - 1);
    }
  }

  lemma CharOfIsNotPad(a: Alphabet, i: sextet)
    ensures CharOf(a, i) != '='
  {
  }

  lemma {:induction false} PadStartAfter(data: string, pad: string)
    requires forall i | 0 <= i < |data| :: data[i] != '='
    requires pad == [] || pad[0] == '='
    ensures PadStart(data + pad) == |data|
    decreases |data|
  {
    if data == [] {
      assert data + pad == pad;
    } else {
      assert (data + pad)[1..] == data[1..] + pad;
      PadStartAfter(data[1..], pad);
    }
  }

  /** Adding a multiple of four leaves the remainder modulo four unchanged. */
  lemma ModFour(q: nat, e: nat)
    requires e < 4
    ensures (4 * q + e) % 4 == e
  {
  }

  /** The number of sextets never leaves a single dangling character, and the padding fits the last unit. */
  lemma SextetCount(n: nat)
    ensures var k := 4 * (n / 3) + (if n % 3 == 0 then 0 else n % 3 + 1);
      k % 4 != 1 && (Padding(n) == "" || Padding(n) == AcceptedPadding(k))
  {
    var q, r := n / 3, n % 3;
    var extra := if r == 0 then 0 else r + 1;
    ModFour(q, extra);
  }

  /** Java's decoder gives back exactly the bytes its encoder was given, padded or not. */
  lemma DecodeEncode(b: seq<byte>, a: Alphabet, padded: bool)
    ensures Decode(Encode(b, a, padded), a) == Some(b)
  {
    var s := ToSextets(b);
    var data := Chars(s, a);
    var pad := if padded then Padding(|b|) else "";
    var t := data + pad;
    assert Encode(b, a, padded) == t;
    forall i | 0 <= i < |data| ensures data[i] != '=' {
      CharOfIsNotPad(a, s[i]);
    }
    PadStartAfter(data, pad);
    var k := |s|;
    assert t[..k] == data;
    assert t[k..] == pad;
    CharsRoundTrip(s, a);
    SextetCount(|b|);
    assert k % 4 != 1;
    assert pad == "" || pad == AcceptedPadding(k);
    SextetsRoundTrip(b);
  }

  /** The padded encoding always has a length that is a multiple of 4. */
  lemma PaddedLength(b: seq<byte>, a: Alphabet)
    ensures |Encode(b, a, true)| == 4 * ((|b| + 2) / 3)
    ensures |Encode(b, a, true)| % 4 == 0
  {
    var n := |b|;
    assert |Encode(b, a, true)| == |ToSextets(b)| + |Padding(n)|;
    PaddedCount(n);
    ModFour((n + 2) / 3, 0);
  }

  /** Four characters per started group of three bytes, padding included. */
  lemma PaddedCount(n: nat)
    ensures 4 * (n / 3) + (if n % 3 == 0 then 0 else n % 3 + 1) + |Padding(n)| == 4 * ((n + 2) / 3)
  {
    var q, r := n / 3, n % 3;
    assert n + 2 == 3 * q + (r + 2);
    assert (n + 2) / 3 == q + (if r == 0 then 0 else 1);
  }

  /** The URL-safe decoder rejects any input holding '+' or '/'. */
  lemma UrlDecodeRejectsStandardOnlyChars(t: string, i: nat)
    requires i < |t| && (t[i] == '+' || t[i] == '/')
    ensures Decode(t, UrlSafe) == None
  {
    var k := PadStart(t);
    if i < k {
      assert t[..k][i] == t[i];
      SextetsOfRejects(t[..k], UrlSafe, i);
    } else {
      assert t[k..][i - k] == t[i];
    }
  }

  /** One byte encodes to two characters, then "==" when padded. */
  lemma EncodeOne(x: byte, a: Alphabet, padded: bool)
    ensures Encode([x], a, padded) == [CharOf(a, Group0(x)), CharOf(a, Group1(x, 0))] + (if padded then "==" else "")
  {
    assert ToSextets([x]) == [Group0(x), Group1(x, 0)];
  }

  /** Two bytes encode to three characters, then "=" when padded. */
  lemma EncodeTwo(x: byte, y: byte, a: Alphabet, padded: bool)
    ensures Encode([x, y], a, padded) == [CharOf(a, Group0(x)), CharOf(a, Group1(x, y)), CharOf(a, Group2(y, 0))] + (if padded then "=" else "")
  {
    assert ToSextets([x, y]) == [Group0(x), Group1(x, y), Group2(y, 0)];
  }

  /** Three bytes encode to four characters and need no padding. */
  lemma EncodeThree(x: byte, y: byte, z: byte, a: Alphabet, padded: bool)
    ensures Encode([x, y, z], a, padded) == [CharOf(a, Group0(x)), CharOf(a, Group1(x, y)), CharOf(a, Group2(y, z)), CharOf(a, Group3(z))]
  {
    assert [x, y, z][3..] == [];
    assert ToSextets([x, y, z]) == [Group0(x), Group1(x, y), Group2(y, z), Group3(z)];
  }

  /** Encoding is compositional at multiples of three bytes. */
  lemma {:induction false} ToSextetsAppend(x: seq<byte>, y: seq<byte>)
    requires |x| % 3 == 0
    ensures ToSextets(x + y) == ToSextets(x) + ToSextets(y)
    decreases |x|
  {
    if x == [] {
      assert x + y == y;
    } else {
      var xy := x + y;
      assert |x| >= 3 && xy[0] == x[0] && xy[1] == x[1] && xy[2] == x[2];
      assert xy[3..] == x[3..] + y;
      ToSextetsAppend(x[3..], y);
      assert ToSextets(x) == [Group0(x[0]), Group1(x[0], x[1]), Group2(x[1], x[2]), Group3(x[2])] + ToSextets(x[3..]);
    }
  }

  lemma {:induction false} CharsAppend(s: seq<sextet>, u: seq<sextet>, a: Alphabet)
    ensures Chars(s + u, a) == Chars(s, a) + Chars(u, a)
  {
  }

  lemma PaddingShift(m: nat, n: nat)
    requires m % 3 == 0
    ensures Padding(m + n) == Padding(n)
  {
    var q := m / 3;
    assert m + n == 3 * q + n;
    assert (3 * q + n) % 3 == n % 3;
  }

  /** Splitting the input after a multiple of three bytes splits the encoding after a multiple of four characters. */
  lemma EncodeAppend(x: seq<byte>, y: seq<byte>, a: Alphabet, padded: bool)
    requires |x| % 3 == 0
    ensures Encode(x + y, a, padded) == Encode(x, a, false) + Encode(y, a, padded)
  {
    var cx, cy := Chars(ToSextets(x), a), Chars(ToSextets(y), a);
    var pad := if padded then Padding(|y|) else "";
    assert Chars(ToSextets(x + y), a) == cx + cy by {
      ToSextetsAppend(x, y);
      CharsAppend(ToSextets(x), ToSextets(y), a);
    }
    assert (if padded then Padding(|x + y|) else "") == pad by {
      PaddingShift(|x|, |y|);
    }
    assert Encode(x, a, false) == cx by {
      assert cx + "" == cx;
    }
    assert Encode(x + y, a, padded) == (cx + cy) + pad;
    assert Encode(y, a, padded) == cy + pad;
    StringAssoc(cx, cy, pad);
  }

  lemma StringAssoc(p: string, q: string, r: string)
    ensures (p + q) + r == p + (q + r)
  {
  }

}
