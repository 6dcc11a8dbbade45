/**
 * PEM armour for a public key (section 2 of RFC 7468): the label lines
 * "-----BEGIN PUBLIC KEY-----" and "-----END PUBLIC KEY-----" around the
 * padded standard base64 of the DER bytes, cut into lines of 64 characters,
 * every line ending in a newline.
 */
module Pem {
  import opened Wrappers
  import opened ByteInt
  import Base64

  const Header: string := "-----BEGIN PUBLIC KEY-----\n"
  const Footer: string := "-----END PUBLIC KEY-----\n"

  /** The lines of the body: what the pattern `.{1,64}` matches in base64 text, which has no line terminators. */
  function BodyLines(t: string): (lines: seq<string>)
    ensures forall i | 0 <= i < |lines| :: 1 <= |lines[i]| <= 64
    ensures forall i | 0 <= i < |lines| - 1 :: |lines[i]| == 64
    ensures Concat(lines) == t
    ensures |lines| == (|t| + 63) / 64
  {
    assert t[0..] == t;
    LinesFrom(t, 0)
  }

  /** The lines of the text from position `p` on: runs of 64 characters, the last one possibly shorter. */
  function LinesFrom(t: string, p: nat): (lines: seq<string>)
    requires p <= |t|
    ensures forall i | 0 <= i < |lines| :: 1 <= |lines[i]| <= 64
    ensures forall i | 0 <= i < |lines| - 1 :: |lines[i]| == 64
    ensures Concat(lines) == t[p..]
    ensures |lines| == (|t| - p + 63) / 64
    decreases |t| - p
  {
    if p == |t| then []
    else if |t| - p <= 64 then [t[p..]]
    else
      var rest := LinesFrom(t, p + 64);
      assert t[p..] == t[p..p + 64] + t[p + 64..];
      [t[p..p + 64]] + rest
  }

  /** Line i of the body is the i-th run of 64 characters, the last one possibly shorter. */
  lemma BodyLineAt(t: string, i: nat)
    requires i < |BodyLines(t)|
    ensures 64 * i < |t|
    ensures BodyLines(t)[i] == t[64 * i..if 64 * i + 64 <= |t| then 64 * i + 64 else |t|]
  {
    LineFromAt(t, 0, i);
  }

  /** Line i from position `p` starts 64 * i characters after `p`. */
  lemma {:induction false} LineFromAt(t: string, p: nat, i: nat)
    requires p <= |t| && i < |LinesFrom(t, p)|
    ensures p + 64 * i < |t|
    ensures LinesFrom(t, p)[i] == t[p + 64 * i..if p + 64 * i + 64 <= |t| then p + 64 * i + 64 else |t|]
    decreases i
  {
    if i > 0 {
      assert LinesFrom(t, p)[i] == LinesFrom(t, p + 64)[i - 1];
      LineFromAt(t, p + 64, i - 1);
    }
  }

  function Concat(lines: seq<string>): string
  {
    if lines == [] then "" else lines[0] + Concat(lines[1..])
  }

  /** Every line followed by "\n": the effect of replaceAll("$0\n"). */
  function Terminate(lines: seq<string>): string
  {
    if lines == [] then "" else lines[0] + "\n" + Terminate(lines[1..])
  }

  function Wrap(t: string): string
  {
    Terminate(BodyLines(t))
  }

  /** The PEM text for DER bytes. */
  function Armor(der: seq<byte>): (pem: string)
    ensures |pem| >= |Header| + |Footer|
    ensures pem[..|Header|] == Header
    ensures pem[|pem| - |Footer|..] == Footer
  {
    Header + Wrap(Base64.Encode(der, Base64.Standard, true)) + Footer
  }

  function RemoveNewlines(s: string): string
  {
    if s == "" then "" else (if s[0] == '\n' then "" else [s[0]]) + RemoveNewlines(s[1..])
  }

  /** Reference decoder: strip the label lines and the newlines, then base64-decode. */
  function Dearmor(pem: string): Option<seq<byte>>
  {
    if |pem| < |Header| + |Footer| || pem[..|Header|] != Header || pem[|pem| - |Footer|..] != Footer then None
    else Base64.Decode(RemoveNewlines(pem[|Header|..|pem| - |Footer|]), Base64.Standard)
  }

  // ---------------------------------------------------------------------
  // Properties
  // ---------------------------------------------------------------------

  lemma {:induction false} RemoveNewlinesAppend(s: string, u: string)
    ensures RemoveNewlines(s + u) == RemoveNewlines(s) + RemoveNewlines(u)
    decreases |s|
  {
    if s != "" {
      assert (s + u)[1..] == s[1..] + u;
      RemoveNewlinesAppend(s[1..], u);
    } else {
      assert s + u == u;
    }
  }

  lemma {:induction false} RemoveNewlinesNone(s: string)
    requires forall i | 0 <= i < |s| :: s[i] != '\n'
    ensures RemoveNewlines(s) == s
    decreases |s|
  {
    if s != "" {
      RemoveNewlinesNone(s[1..]);
    }
  }

  lemma {:induction false} RemoveNewlinesTerminate(lines: seq<string>)
    requires forall i, j | 0 <= i < |lines| && 0 <= j < |lines[i]| :: lines[i][j] != '\n'
    ensures RemoveNewlines(Terminate(lines)) == Concat(lines)
    decreases |lines|
  {
    if lines != [] {
      assert forall j | 0 <= j < |lines[0]| :: lines[0][j] != '\n';
      RemoveNewlinesLine(lines[0], Terminate(lines[1..]));
      RemoveNewlinesTerminate(lines[1..]);
    }
  }

  /** One terminated line: its newline drops out and the line itself is kept. */
  lemma RemoveNewlinesLine(line: string, rest: string)
    requires forall j | 0 <= j < |line| :: line[j] != '\n'
    ensures RemoveNewlines(line + "\n" + rest) == line + RemoveNewlines(rest)
  {
    var u := "\n" + rest;
    assert line + "\n" + rest == line + u;
    RemoveNewlinesAppend(line, u);
    RemoveNewlinesNone(line);
    RemoveNewlinesNewline(rest);
  }

  lemma RemoveNewlinesNewline(rest: string)
    ensures RemoveNewlines("\n" + rest) == RemoveNewlines(rest)
  {
    assert ("\n" + rest)[1..] == rest;
  }

  lemma {:induction false} ConcatChars(lines: seq<string>, i: nat, j: nat)
    requires i < |lines| && j < |lines[i]|
    ensures exists k :: 0 <= k < |Concat(lines)| && Concat(lines)[k] == lines[i][j]
    decreases |lines|
  {
    if i == 0 {
      assert Concat(lines)[j] == lines[0][j];
    } else {
      ConcatChars(lines[1..], i - 1, j);
      var k :| 0 <= k < |Concat(lines[1..])| && Concat(lines[1..])[k] == lines[1..][i - 1][j];
      assert Concat(lines)[|lines[0]| + k] == lines[i][j];
    }
  }

  /** Removing the newlines from the wrapped body gives back the text that was wrapped. */
  lemma UnwrapWrap(t: string)
    requires forall i | 0 <= i < |t| :: t[i] != '\n'
    ensures RemoveNewlines(Wrap(t)) == t
  {
    var lines := BodyLines(t);
    forall i, j | 0 <= i < |lines| && 0 <= j < |lines[i]| ensures lines[i][j] != '\n' {
      ConcatChars(lines, i, j);
    }
    RemoveNewlinesTerminate(lines);
  }

  lemma NoNewlineInBase64(b: seq<byte>)
    ensures forall i | 0 <= i < |Base64.Encode(b, Base64.Standard, true)| :: Base64.Encode(b, Base64.Standard, true)[i] != '\n'
  {
    var s := Base64.ToSextets(b);
    var t := Base64.Encode(b, Base64.Standard, true);
    forall i | 0 <= i < |t| ensures t[i] != '\n' {
      if i < |s| {
        assert t[i] == Base64.CharOf(Base64.Standard, s[i]);
      }
    }
  }

  /** The body is padded standard base64 of the DER bytes: a multiple of 4 characters that decodes to them. */
  lemma ArmorBody(der: seq<byte>)
    ensures var body := Base64.Encode(der, Base64.Standard, true);
      && Armor(der) == Header + Wrap(body) + Footer
      && |body| % 4 == 0
      && RemoveNewlines(Wrap(body)) == body
      && Base64.Decode(body, Base64.Standard) == Some(der)
  {
    var body := Base64.Encode(der, Base64.Standard, true);
    Base64.PaddedLength(der, Base64.Standard);
    NoNewlineInBase64(der);
    UnwrapWrap(body);
    Base64.DecodeEncode(der, Base64.Standard, true);
  }

  /** The armour reads back as the DER bytes it was built from. */
  lemma DearmorArmor(der: seq<byte>)
    ensures Dearmor(Armor(der)) == Some(der)
  {
    var body := Base64.Encode(der, Base64.Standard, true);
    var pem := Armor(der);
    ArmorBody(der);
    assert pem[|Header|..|pem| - |Footer|] == Wrap(body);
  }
}
