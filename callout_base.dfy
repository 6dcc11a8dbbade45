/**
 * The helpers every callout shares: filtering the raw property map,
 * resolving `{name}` / `{name:default}` references against the message
 * context, reading the `source` and `debug` properties, and recording an
 * exception in the `jwks_exception` / `jwks_error` context variables.
 */
module CalloutBase {
  import opened Wrappers

  // ---------------------------------------------------------------------
  // Raw property maps
  // ---------------------------------------------------------------------

  /** A key or value of the untyped property map handed to a callout's constructor. */
  datatype JavaObject = JavaNull | JavaString(s: string) | OtherObject(id: nat)

  /** Keeps exactly the entries whose key and value are both strings. */
  method GenericizeMap(raw: map<JavaObject, JavaObject>) returns (m: map<string, string>)
    ensures forall k :: k in m <==> JavaString(k) in raw && raw[JavaString(k)].JavaString?
    ensures forall k | k in m :: raw[JavaString(k)] == JavaString(m[k])
  {
    m := map[];
    var pending := raw.Keys;
    while pending != {}
      invariant pending <= raw.Keys
      invariant forall k :: k in m <==> JavaString(k) in raw && JavaString(k) !in pending && raw[JavaString(k)].JavaString?
      invariant forall k | k in m :: raw[JavaString(k)] == JavaString(m[k])
      decreases pending
    {
      var key :| key in pending;
      var value := raw[key];
      if key.JavaString? && value.JavaString? {
        m := m[key.s := value.s];
      }
      pending := pending - {key};
    }
  }

  /** The name of a context variable this callout writes. */
  function VarName(s: string): string
  {
    "jwks_" + s
  }

  /** Different suffixes name different variables. */
  lemma VarNameInjective(a: string, b: string)
    ensures VarName(a) == VarName(b) ==> a == b
  {
    if VarName(a) == VarName(b) {
      assert a == VarName(a)[5..];
      assert b == VarName(b)[5..];
    }
  }

  // ---------------------------------------------------------------------
  // String.trim and Boolean.parseBoolean
  // ---------------------------------------------------------------------

  /** String.trim removes every character at or below U+0020 from both ends. */
  predicate IsBlank(c: char) { c <= ' ' }

  function LeadingBlanks(s: string): (n: nat)
    ensures n <= |s|
    ensures forall k | 0 <= k < n :: IsBlank(s[k])
    ensures n < |s| ==> !IsBlank(s[n])
  {
    if s == [] || !IsBlank(s[0]) then 0 else 1 + LeadingBlanks(s[1..])
  }

  function TrailingBlanks(s: string): (n: nat)
    ensures n <= |s|
    ensures forall k | |s| - n <= k < |s| :: IsBlank(s[k])
    ensures n < |s| ==> !IsBlank(s[|s| - 1 - n])
  {
    if s == [] || !IsBlank(s[|s| - 1]) then 0 else 1 + TrailingBlanks(s[..|s| - 1])
  }

  function Trim(s: string): (r: string)
    ensures |r| <= |s|
    ensures r == [] <==> forall k | 0 <= k < |s| :: IsBlank(s[k])
    ensures r != [] ==> !IsBlank(r[0]) && !IsBlank(r[|r| - 1])
    ensures LeadingBlanks(s) + |r| <= |s| && r == s[LeadingBlanks(s)..LeadingBlanks(s) + |r|]
    ensures forall k | LeadingBlanks(s) + |r| <= k < |s| :: IsBlank(s[k])
  {
    var i := LeadingBlanks(s);
    var t := s[i..];
    var n := TrailingBlanks(t);
    assert n == |t| ==> forall k | 0 <= k < |s| :: IsBlank(s[k]) by {
      if n == |t| {
        forall k | 0 <= k < |s| ensures IsBlank(s[k]) {
        }
      }
    }
    t[..|t| - n]
  }

  /** Trimming a value that has no blank at either end leaves it unchanged, so trimming twice is trimming once. */
  lemma TrimIdempotent(s: string)
    ensures Trim(Trim(s)) == Trim(s)
  {
    var r := Trim(s);
    assert LeadingBlanks(r) == 0;
    if r != [] {
      assert TrailingBlanks(r) == 0;
    }
  }

  function LowerAscii(c: char): char
  {
    if 'A' <= c <= 'Z' then (c as int + 32) as char else c
  }

  function UpperAscii(c: char): char
  {
    if 'a' <= c <= 'z' then (c as int - 32) as char else c
  }

  /** Boolean.parseBoolean: the text equals "true", compared letter by letter ignoring case. */
  predicate ParseBoolean(s: string)
  {
    |s| == 4 && forall k | 0 <= k < 4 :: s[k] == "true"[k] || UpperAscii(s[k]) == UpperAscii("true"[k])
  }

  function Lowercase(s: string): (r: string)
    ensures |r| == |s|
    ensures forall k | 0 <= k < |s| :: r[k] == LowerAscii(s[k])
  {
    if s == [] then [] else [LowerAscii(s[0])] + Lowercase(s[1..])
  }

  /** getDebug: the `debug` property is present and reads "true" in any mix of cases. */
  function GetDebug(properties: map<string, string>): (debug: bool)
    ensures debug <==> "debug" in properties && Lowercase(properties["debug"]) == "true"
  {
    "debug" in properties && ParseBoolean(properties["debug"])
  }

  // ---------------------------------------------------------------------
  // Variable references: the pattern (.*?)\{([^\{\} :][^\{\} ]*?)\}(.*?)
  // ---------------------------------------------------------------------

  /** A character that may open a reference name: anything but a brace, a space or a colon. */
  predicate NameStart(c: char) { c != '{' && c != '}' && c != ' ' && c != ':' }

  /** A character that may continue a reference name: anything but a brace or a space. */
  predicate NameChar(c: char) { c != '{' && c != '}' && c != ' ' }

  predicate WellFormedName(name: string)
  {
    |name| >= 1 && NameStart(name[0]) && forall k | 1 <= k < |name| :: NameChar(name[k])
  }

  predicate NameRun(s: string, i: nat, e: nat)
    requires i <= e <= |s|
  {
    forall k | i <= k < e :: NameChar(s[k])
  }

  /** The end of the run of name characters that starts at `i`. */
  function NameEnd(s: string, i: nat): (r: nat)
    requires i <= |s|
    ensures i <= r <= |s|
    decreases |s| - i
  {
    if i == |s| || !NameChar(s[i]) then i else NameEnd(s, i + 1)
  }

  /** The first closing brace at or after `i` reached over name characters only. */
  function ClosingBrace(s: string, i: nat): (r: Option<nat>)
    requires i <= |s|
    ensures r.Some? ==> i <= r.value < |s|
  {
    var j := NameEnd(s, i);
    if j < |s| && s[j] == '}' then Some(j) else None
  }

  /** Every character of the run is a name character, and the run stops at the end or at one that is not. */
  lemma {:induction false} NameEndFacts(s: string, i: nat)
    requires i <= |s|
    ensures NameRun(s, i, NameEnd(s, i))
    ensures NameEnd(s, i) < |s| ==> !NameChar(s[NameEnd(s, i)])
    decreases |s| - i
  {
    if i < |s| && NameChar(s[i]) {
      NameEndFacts(s, i + 1);
    }
  }

  /** The brace found is reached over name characters only, and when none is found no brace is reachable. */
  lemma ClosingBraceFacts(s: string, i: nat)
    requires i <= |s|
    ensures ClosingBrace(s, i).Some? ==> s[ClosingBrace(s, i).value] == '}' && NameRun(s, i, ClosingBrace(s, i).value)
    ensures ClosingBrace(s, i).None? ==> forall e | i <= e < |s| && s[e] == '}' :: !NameRun(s, i, e)
  {
    NameEndFacts(s, i);
    var j := NameEnd(s, i);
    forall e | i <= e < |s| && s[e] == '}' && NameRun(s, i, e) ensures ClosingBrace(s, i).Some? {
    }
  }

  /** `s` starts with `{name}` for a well-formed name whose closing brace is at `e`. */
  predicate ReferenceEndsAt(s: string, e: nat)
  {
    2 <= e < |s| && s[0] == '{' && s[e] == '}' && WellFormedName(s[1..e])
  }

  /** The closing brace of a reference that opens at position `p` of `s`, as a position of `s`. */
  function ReferenceFrom(s: string, p: nat): (r: Option<nat>)
    requires p <= |s|
    ensures r.Some? ==> p + 2 <= r.value < |s|
  {
    if p + 2 <= |s| && s[p] == '{' && NameStart(s[p + 1]) then ClosingBrace(s, p + 2) else None
  }

  /** At position 0, ReferenceFrom finds exactly the well-formed reference `s` starts with, if there is one. */
  lemma ReferenceStartFacts(s: string)
    ensures ReferenceFrom(s, 0).Some? ==> ReferenceEndsAt(s, ReferenceFrom(s, 0).value)
    ensures ReferenceFrom(s, 0).None? ==> forall e :: !ReferenceEndsAt(s, e)
  {
    if |s| >= 2 && s[0] == '{' && NameStart(s[1]) {
      ClosingBraceFacts(s, 2);
      var c := ClosingBrace(s, 2);
      if c.Some? {
        assert forall k | 1 <= k < c.value - 1 :: s[1..c.value][k] == s[k + 1];
      } else {
        forall e: nat | ReferenceEndsAt(s, e) ensures false {
        }
      }
    }
  }

  /** A reference has one closing brace: the first one after its opening brace. */
  lemma ReferenceEndsUnique(s: string, e1: nat, e2: nat)
    requires ReferenceEndsAt(s, e1) && ReferenceEndsAt(s, e2)
    ensures e1 == e2
  {
  }

  /** Text contains a well-formed reference somewhere. */
  ghost predicate ContainsReference(s: string)
  {
    exists i: nat, e: nat | i < |s| :: ReferenceEndsAt(s[i..], e)
  }

  /** Text without an opening brace holds no reference. */
  lemma NoBraceNoReference(s: string)
    requires '{' !in s
    ensures !ContainsReference(s)
  {
    forall i: nat, e: nat | i < |s| ensures !ReferenceEndsAt(s[i..], e) {
      assert s[i..][0] == s[i];
    }
  }

  /** Index of the first occurrence of `c` in `s` at or after position `i`. */
  function IndexOf(s: string, c: char, i: nat): (r: Option<nat>)
    requires i <= |s|
    ensures r.Some? ==> i <= r.value < |s|
    decreases |s| - i
  {
    if i == |s| then None
    else if s[i] == c then Some(i)
    else IndexOf(s, c, i + 1)
  }

  /** IndexOf finds the first occurrence from `i` on, and reports none only when `c` does not occur there. */
  lemma {:induction false} IndexOfFacts(s: string, c: char, i: nat)
    requires i <= |s|
    ensures IndexOf(s, c, i).Some? ==> s[IndexOf(s, c, i).value] == c && forall k | i <= k < IndexOf(s, c, i).value :: s[k] != c
    ensures IndexOf(s, c, i).None? ==> forall k | i <= k < |s| :: s[k] != c
    decreases |s| - i
  {
    if i < |s| && s[i] != c {
      IndexOfFacts(s, c, i + 1);
    }
  }

  /**
   * The replacement of one reference: the context value of the part before
   * the first colon if there is one, else the text after that colon, else
   * nothing.
   */
  function Substitute(name: string, ctx: map<string, string>): string
  {
    match IndexOf(name, ':', 0)
    case None => if name in ctx then ctx[name] else ""
    case Some(c) =>
      var key := name[..c];
      if key in ctx then ctx[key] else name[c + 1..]
  }

  /** The three cases of a replacement, stated through the first colon of the reference. */
  lemma SubstituteCases(name: string, ctx: map<string, string>)
    ensures ':' !in name ==> Substitute(name, ctx) == (if name in ctx then ctx[name] else "")
    ensures forall c | 0 <= c < |name| && name[c] == ':' && ':' !in name[..c] ::
      Substitute(name, ctx) == (if name[..c] in ctx then ctx[name[..c]] else name[c + 1..])
  {
    if ':' !in name {
      IndexOfFacts(name, ':', 0);
    }
    forall c | 0 <= c < |name| && name[c] == ':' && ':' !in name[..c] {
      FirstColon(name, c);
    }
  }

  /** A colon with no colon before it is the one IndexOf finds. */
  lemma FirstColon(name: string, c: nat)
    requires c < |name| && name[c] == ':' && ':' !in name[..c]
    ensures IndexOf(name, ':', 0) == Some(c)
  {
    IndexOfFacts(name, ':', 0);
  }

  /** The value resolveVariableReferences computes: every reference replaced, all other text copied in order. */
  function Resolve(s: string, ctx: map<string, string>): string
  {
    ResolveWith(s, Replace(ctx))
  }

  /** The replacement of each reference, as a function of its name. */
  function Replace(ctx: map<string, string>): string -> string
  {
    name => Substitute(name, ctx)
  }

  /** Every reference replaced by `sub` of its name, all other text copied in order. */
  function ResolveWith(s: string, sub: string -> string): string
  {
    ResolveFrom(s, 0, sub)
  }

  /** Text that starts with a well-formed reference: the reference ends at its first closing brace. */
  lemma ReferenceStartBraced(name: string, b: string)
    requires WellFormedName(name)
    ensures ReferenceFrom("{" + name + "}" + b, 0) == Some(|name| + 1)
  {
    var s := "{" + name + "}" + b;
    var e := |name| + 1;
    assert s[e] == '}' && s[1..e] == name;
    assert ReferenceEndsAt(s, e);
    ReferenceStartFacts(s);
    ReferenceEndsUnique(s, ReferenceFrom(s, 0).value, e);
  }

  lemma ResolveAtReference(name: string, b: string, sub: string -> string)
    requires WellFormedName(name)
    ensures ResolveWith("{" + name + "}" + b, sub) == sub(name) + ResolveWith(b, sub)
  {
    var t := "{" + name + "}" + b;
    ReferenceStartBraced(name, b);
    ResolveReferenceStep(t, |name| + 1, sub);
    BracedSlices(name, b);
  }

  lemma BracedSlices(name: string, b: string)
    ensures ("{" + name + "}" + b)[1..|name| + 1] == name
    ensures ("{" + name + "}" + b)[|name| + 2..] == b
  {
  }

  /** Text that starts with a reference closing at `e`: its replacement, then the rest resolved. */
  lemma ResolveReferenceStep(t: string, e: nat, sub: string -> string)
    requires ReferenceFrom(t, 0) == Some(e)
    ensures e < |t| && ResolveWith(t, sub) == sub(t[1..e]) + ResolveWith(t[e + 1..], sub)
  {
    ResolveFromReference(t, 0, e, sub);
    ResolveSuffix(t, e + 1, sub);
  }

  /** Text that does not start with a reference: its first character, then the rest resolved. */
  lemma ResolveCopyStep(t: string, sub: string -> string)
    requires t != [] && ReferenceFrom(t, 0).None?
    ensures ResolveWith(t, sub) == [t[0]] + ResolveWith(t[1..], sub)
  {
    ResolveFromCopy(t, 0, sub);
    ResolveSuffix(t, 1, sub);
  }

  lemma Assoc(x: string, y: string, z: string)
    ensures x + (y + z) == x + y + z
  {
  }

  lemma SliceOfSliceRange(s: string, q: nat, i: nat, j: nat)
    requires i <= j && q + j <= |s|
    ensures s[q..][i..j] == s[q + i..q + j]
  {
  }

  lemma SliceCons(s: string, p: nat, q: nat)
    requires p < q <= |s|
    ensures s[p..q] == [s[p]] + s[p + 1..q]
  {
  }

  lemma ResolvePlainChar(c: char, rest: string, sub: string -> string)
    requires c != '{'
    ensures ResolveWith([c] + rest, sub) == [c] + ResolveWith(rest, sub)
  {
    var s := [c] + rest;
    assert ReferenceFrom(s, 0).None? by {
      assert s[0] != '{';
    }
    assert s[1..] == rest;
    ResolveCopyStep(s, sub);
  }

  /** Text that holds no '{' is copied through ahead of whatever follows it. */
  lemma {:induction false} ResolvePlainPrefix(a: string, t: string, sub: string -> string)
    requires '{' !in a
    ensures ResolveWith(a + t, sub) == a + ResolveWith(t, sub)
    decreases |a|
  {
    if a != [] {
      var rest := a[1..] + t;
      assert a + t == [a[0]] + rest;
      ResolvePlainChar(a[0], rest, sub);
      assert '{' !in a[1..];
      ResolvePlainPrefix(a[1..], t, sub);
      ConsAssoc(a[0], a[1..], ResolveWith(t, sub), a);
    } else {
      EmptyPrefix(a, t);
      EmptyPrefix(a, ResolveWith(t, sub));
    }
  }

  lemma EmptyPrefix(a: string, t: string)
    requires a == []
    ensures a + t == t
  {
  }

  lemma ConsAssoc(c: char, x: string, y: string, a: string)
    requires a == [c] + x
    ensures [c] + (x + y) == a + y
  {
  }

  /** Text before a reference that holds no '{' is copied through, and the reference is replaced. */
  lemma ResolveReference(a: string, name: string, b: string, sub: string -> string)
    requires '{' !in a && WellFormedName(name)
    ensures ResolveWith(a + "{" + name + "}" + b, sub) == a + sub(name) + ResolveWith(b, sub)
  {
    var t := "{" + name + "}" + b;
    assert a + "{" + name + "}" + b == a + t;
    ResolvePlainPrefix(a, t, sub);
    ResolveAtReference(name, b, sub);
    Assoc(a, sub(name), ResolveWith(b, sub));
  }

  /** Text without a well-formed reference resolves to itself. */
  lemma {:induction false} ResolveNoReference(s: string, sub: string -> string)
    requires !ContainsReference(s)
    ensures ResolveWith(s, sub) == s
    decreases |s|
  {
    if s != [] {
      assert s[0..] == s;
      ReferenceStartFacts(s);
      assert ReferenceFrom(s, 0).None?;
      ResolveCopyStep(s, sub);
      forall i: nat, e: nat | i < |s| - 1 ensures !ReferenceEndsAt(s[1..][i..], e) {
        assert s[1..][i..] == s[i + 1..];
      }
      ResolveNoReference(s[1..], sub);
    }
  }

  /** Resolve, read from position `p` of `s` on: the form the matcher loop walks. */
  function ResolveFrom(s: string, p: nat, sub: string -> string): string
    requires p <= |s|
    decreases |s| - p
  {
    if p == |s| then []
    else
      var (head, next) := TokenFrom(s, p, sub);
      head + ResolveFrom(s, next, sub)
  }

  /** The text the token at position `p` becomes, and where the next token starts. */
  function TokenFrom(s: string, p: nat, sub: string -> string): (r: (string, nat))
    requires p < |s|
    ensures p < r.1 <= |s|
  {
    match ReferenceFrom(s, p)
    case Some(e) => (sub(s[p + 1..e]), e + 1)
    case None => ([s[p]], p + 1)
  }

  /** The step of ResolveFrom at a position where a reference opens. */
  lemma ResolveFromReference(s: string, p: nat, e: nat, sub: string -> string)
    requires p < |s| && ReferenceFrom(s, p) == Some(e)
    ensures ResolveFrom(s, p, sub) == sub(s[p + 1..e]) + ResolveFrom(s, e + 1, sub)
  {
    assert TokenFrom(s, p, sub) == (sub(s[p + 1..e]), e + 1);
  }

  /** The step of ResolveFrom at a position where no reference opens. */
  lemma ResolveFromCopy(s: string, p: nat, sub: string -> string)
    requires p < |s| && ReferenceFrom(s, p).None?
    ensures ResolveFrom(s, p, sub) == [s[p]] + ResolveFrom(s, p + 1, sub)
  {
    assert TokenFrom(s, p, sub) == ([s[p]], p + 1);
  }

  /** `s` from position `p` on and `t` from position `q` on are the same text. */
  predicate Agree(s: string, p: nat, t: string, q: nat)
    requires p <= |s| && q <= |t|
  {
    |s| - p == |t| - q && forall k | p <= k < |s| :: s[k] == t[k - p + q]
  }

  /** A suffix agrees with the text it was cut from. */
  lemma SuffixAgrees(s: string, p: nat)
    requires p <= |s|
    ensures Agree(s[p..], 0, s, p)
  {
  }

  /** Agreeing texts have the same slices, at shifted positions. */
  lemma SliceAgree(s: string, p: nat, t: string, q: nat, a: nat, b: nat)
    requires p <= a <= b <= |s| && q <= |t| && Agree(s, p, t, q)
    ensures s[a..b] == t[a - p + q..b - p + q]
  {
    assert forall k | 0 <= k < b - a :: s[a..b][k] == s[a + k];
  }

  /** In agreeing texts the run of name characters ends at the same shifted position. */
  lemma {:induction false} NameEndAgree(s: string, p: nat, t: string, q: nat, i: nat)
    requires p + i <= |s| && q <= |t| && Agree(s, p, t, q)
    ensures NameEnd(s, p + i) - p == NameEnd(t, q + i) - q
    decreases |s| - p - i
  {
    if p + i < |s| {
      assert s[p + i] == t[q + i];
      NameEndAgree(s, p, t, q, i + 1);
    }
  }

  /** In agreeing texts a reference opens at the same shifted position and closes at the same shifted position. */
  lemma ReferenceFromAgree(s: string, p: nat, t: string, q: nat, i: nat)
    requires p + i <= |s| && q <= |t| && Agree(s, p, t, q)
    ensures ReferenceFrom(s, p + i).Some? <==> ReferenceFrom(t, q + i).Some?
    ensures ReferenceFrom(s, p + i).Some? ==> ReferenceFrom(s, p + i).value - p == ReferenceFrom(t, q + i).value - q
  {
    if p + i + 2 <= |s| {
      assert s[p + i] == t[q + i] && s[p + i + 1] == t[q + i + 1];
      NameEndAgree(s, p, t, q, i + 2);
      var j := NameEnd(s, p + i + 2);
      if j < |s| {
        assert s[j] == t[j - p + q];
      }
    }
  }

  /** Agreeing texts resolve alike from shifted positions. */
  lemma {:induction false} ResolveFromAgree(s: string, p: nat, t: string, q: nat, i: nat, sub: string -> string)
    requires p + i <= |s| && q <= |t| && Agree(s, p, t, q)
    ensures ResolveFrom(s, p + i, sub) == ResolveFrom(t, q + i, sub)
    decreases |s| - p - i
  {
    if p + i < |s| {
      ReferenceFromAgree(s, p, t, q, i);
      var r := ReferenceFrom(s, p + i);
      if r.Some? {
        ResolveFromAgree(s, p, t, q, r.value + 1 - p, sub);
        SliceAgree(s, p, t, q, p + i + 1, r.value);
        TokenAgreeReference(s, p, t, q, i, r.value, sub);
      } else {
        ResolveFromAgree(s, p, t, q, i + 1, sub);
        TokenAgreeCopy(s, p, t, q, i, sub);
      }
    }
  }

  lemma TokenAgreeReference(s: string, p: nat, t: string, q: nat, i: nat, e: nat, sub: string -> string)
    requires p + i < e < |s| && q + i < e - p + q < |t|
    requires ReferenceFrom(s, p + i) == Some(e) && ReferenceFrom(t, q + i) == Some(e - p + q)
    requires s[p + i + 1..e] == t[q + i + 1..e - p + q]
    requires ResolveFrom(s, e + 1, sub) == ResolveFrom(t, e + 1 - p + q, sub)
    ensures ResolveFrom(s, p + i, sub) == ResolveFrom(t, q + i, sub)
  {
    var f := e - p + q;
    ResolveFromReference(s, p + i, e, sub);
    ResolveFromReference(t, q + i, f, sub);
    assert sub(s[p + i + 1..e]) == sub(t[q + i + 1..f]);
  }

  lemma TokenAgreeCopy(s: string, p: nat, t: string, q: nat, i: nat, sub: string -> string)
    requires p + i < |s| && q <= |t| && Agree(s, p, t, q)
    requires ReferenceFrom(s, p + i).None? && ReferenceFrom(t, q + i).None?
    requires ResolveFrom(s, p + i + 1, sub) == ResolveFrom(t, q + i + 1, sub)
    ensures ResolveFrom(s, p + i, sub) == ResolveFrom(t, q + i, sub)
  {
    assert s[p + i] == t[q + i];
    assert TokenFrom(s, p + i, sub) == ([s[p + i]], p + i + 1);
    assert TokenFrom(t, q + i, sub) == ([s[p + i]], q + i + 1);
  }

  /** Resolving the suffix from `p` is resolving `s` from `p`. */
  lemma ResolveSuffix(s: string, p: nat, sub: string -> string)
    requires p <= |s|
    ensures ResolveWith(s[p..], sub) == ResolveFrom(s, p, sub)
  {
    SuffixAgrees(s, p);
    ResolveFromAgree(s[p..], 0, s, p, 0, sub);
  }

  /** No reference opens at positions `p` to `q`. */
  predicate FreeOfReferences(s: string, p: nat, q: nat)
    requires p <= q <= |s|
  {
    forall k | p <= k < q :: ReferenceFrom(s, k).None?
  }

  /** Text that opens no reference at positions `p` to `q` is copied through. */
  lemma {:induction false} CopyUntilReference(s: string, p: nat, q: nat, sub: string -> string)
    requires p <= q <= |s|
    requires FreeOfReferences(s, p, q)
    ensures ResolveFrom(s, p, sub) == s[p..q] + ResolveFrom(s, q, sub)
    decreases q - p
  {
    if p < q {
      assert ReferenceFrom(s, p).None?;
      ResolveFromCopy(s, p, sub);
      CopyUntilReference(s, p + 1, q, sub);
      SliceCons(s, p, q);
      ConsAssoc(s[p], s[p + 1..q], ResolveFrom(s, q, sub), s[p..q]);
    } else {
      EmptyPrefix(s[p..q], ResolveFrom(s, q, sub));
    }
  }

  /** One step of the matcher loop: the text before the reference, its replacement, then the rest. */
  lemma ResolveAt(s: string, p: nat, q: nat, e: nat, sub: string -> string)
    requires MatcherState(s, p, true, q, e)
    ensures ResolveFrom(s, p, sub) == s[p..q] + sub(s[q + 1..e]) + ResolveFrom(s, e + 1, sub)
  {
    CopyUntilReference(s, p, q, sub);
    ResolveFromReference(s, q, e, sub);
    Assoc(s[p..q], sub(s[q + 1..e]), ResolveFrom(s, e + 1, sub));
  }

  /** Text from `p` on that opens no reference is copied through. */
  lemma ResolveTail(s: string, p: nat, sub: string -> string)
    requires p <= |s| && FreeOfReferences(s, p, |s|)
    ensures ResolveFrom(s, p, sub) == s[p..]
  {
    CopyUntilReference(s, p, |s|, sub);
    SliceWhole(s, p);
  }

  lemma SliceWhole(s: string, p: nat)
    requires p <= |s|
    ensures s[p..|s|] + [] == s[p..]
  {
  }

  /** The buffer after one more reference: what was appended so far, then the step of ResolveAt. */
  lemma ResolveStep(s: string, sb: string, p: nat, q: nat, e: nat, next: string, sub: string -> string)
    requires MatcherState(s, p, true, q, e)
    requires sb + ResolveFrom(s, p, sub) == ResolveFrom(s, 0, sub)
    requires next == sb + (s[p..q] + sub(s[q + 1..e]))
    ensures e + 1 <= |s| && next + ResolveFrom(s, e + 1, sub) == ResolveFrom(s, 0, sub)
  {
    ResolveAt(s, p, q, e, sub);
    Assoc(sb, s[p..q] + sub(s[q + 1..e]), ResolveFrom(s, e + 1, sub));
  }

  /**
   * What matcher.find() reports from position `p`: either the next reference
   * opens at `q` and closes at `e`, or none opens before the end.
   */
  predicate MatcherState(s: string, p: nat, found: bool, q: nat, e: nat)
  {
    p <= |s| &&
    if found then p <= q < e < |s| && ReferenceFrom(s, q) == Some(e) && FreeOfReferences(s, p, q)
    else FreeOfReferences(s, p, |s|)
  }

  /** matcher.find(): the first position at or after `from` where a reference opens. */
  method FindReference(s: string, from: nat) returns (found: bool, q: nat, e: nat)
    requires from <= |s|
    ensures MatcherState(s, from, found, q, e)
  {
    found, q, e := false, from, 0;
    while q < |s|
      invariant from <= q <= |s|
      invariant FreeOfReferences(s, from, q)
    {
      var m := ReferenceFrom(s, q);
      if m.Some? {
        return true, q, m.value;
      }
      q := q + 1;
    }
  }

  /** resolveVariableReferences: the matcher loop appending to a buffer. */
  method ResolveVariableReferences(spec: string, ctx: map<string, string>) returns (r: string)
    ensures r == Resolve(spec, ctx)
  {
    if spec == "" {
      return spec;
    }
    var sb := "";
    var pos := 0;
    var found, q, e := FindReference(spec, 0);
    while found
      invariant MatcherState(spec, pos, found, q, e)
      invariant sb + ResolveFrom(spec, pos, Replace(ctx)) == ResolveFrom(spec, 0, Replace(ctx))
      decreases |spec| - pos
    {
      var next := sb + (spec[pos..q] + Substitute(spec[q + 1..e], ctx));
      ResolveStep(spec, sb, pos, q, e, next, Replace(ctx));
      sb, pos := next, e + 1;
      found, q, e := FindReference(spec, pos);
    }
    ResolveTail(spec, pos, Replace(ctx));
    r := sb + spec[pos..];
  }

  // ---------------------------------------------------------------------
  // Properties naming context variables
  // ---------------------------------------------------------------------

  /**
   * The value of a property that names a context variable: absent when the
   * property is missing, blank after trimming, or resolves to nothing;
   * otherwise the trimmed value with its references resolved.
   */
  function ResolvedProperty(properties: map<string, string>, name: string, ctx: map<string, string>): (r: Option<string>)
    ensures r.None? <==> name !in properties || Trim(properties[name]) == "" || Resolve(Trim(properties[name]), ctx) == ""
    ensures r.Some? ==> name in properties && r.value != "" && r.value == Resolve(Trim(properties[name]), ctx)
  {
    if name !in properties then None
    else
      var value := Trim(properties[name]);
      if value == "" then None
      else
        var resolved := Resolve(value, ctx);
        if resolved == "" then None else Some(resolved)
  }

  function GetSource(properties: map<string, string>, ctx: map<string, string>): Option<string>
  {
    ResolvedProperty(properties, "source", ctx)
  }

  /** A plain variable name, padded with blanks, is read as that name. */
  lemma GetSourcePlainName(properties: map<string, string>, ctx: map<string, string>, pad: string, name: string)
    requires forall k | 0 <= k < |pad| :: IsBlank(pad[k])
    requires name != [] && !IsBlank(name[0]) && !IsBlank(name[|name| - 1]) && '{' !in name
    requires "source" in properties && properties["source"] == pad + name + pad
    ensures GetSource(properties, ctx) == Some(name)
  {
    var s := pad + name + pad;
    var t := Trim(s);
    assert LeadingBlanks(s) == |pad| by {
      assert s[|pad|] == name[0];
    }
    assert s[|pad|..|pad| + |name|] == name;
    assert t == name;
    NoBraceNoReference(name);
    ResolveNoReference(name, Replace(ctx));
  }

  // ---------------------------------------------------------------------
  // Exceptions and the error variables
  // ---------------------------------------------------------------------

  /**
   * A thrown exception: its class name, its optional message, and whether it
   * is an IllegalStateException or an instance of one of its subclasses, which
   * is what `catch (IllegalStateException exc1)` takes.
   */
  datatype Exception = Exception(className: string, message: Option<string>, isIllegalState: bool)

  const IllegalStateClass: string := "java.lang.IllegalStateException"
  const NullPointerClass: string := "java.lang.NullPointerException"
  const ClassCastClass: string := "java.lang.ClassCastException"
  const IllegalArgumentClass: string := "java.lang.IllegalArgumentException"

  function IllegalState(message: string): Exception
  {
    Exception(IllegalStateClass, Some(message), true)
  }

  /** Throwable.toString: the class name, then ": " and the message when there is one. */
  function Describe(e: Exception): (r: string)
    ensures e.message.None? ==> r == e.className
    ensures e.message.Some? ==>
      (|r| == |e.className| + 2 + |e.message.value| && r[..|e.className|] == e.className
       && r[|e.className|..|e.className| + 2] == ": " && r[|e.className| + 2..] == e.message.value)
  {
    if e.message.Some? then e.className + ": " + e.message.value else e.className
  }

  /** replaceAll("\n", " "). */
  function FlattenNewlines(s: string): (r: string)
    ensures |r| == |s|
    ensures '\n' !in r
    ensures forall k | 0 <= k < |s| && s[k] != '\n' :: r[k] == s[k]
  {
    if s == [] then [] else [if s[0] == '\n' then ' ' else s[0]] + FlattenNewlines(s[1..])
  }

  /** The characters `.` does not match in a Java pattern. */
  predicate IsLineTerminator(c: char)
  {
    c == '\n' || c == '\r' || c == '\U{0085}' || c == '\U{2028}' || c == '\U{2029}'
  }

  /** A separator of ^(.+?)[:;] (.+)$ at index `i`: a colon or semicolon and a space, with text on both sides. */
  predicate IsSeparator(s: string, i: nat)
  {
    1 <= i && i + 2 < |s| && (s[i] == ':' || s[i] == ';') && s[i + 1] == ' '
  }

  function FirstSeparator(s: string, from: nat): (r: Option<nat>)
    ensures r.Some? ==> from <= r.value && IsSeparator(s, r.value)
    ensures forall k | from <= k && (r.None? || k < r.value) :: !IsSeparator(s, k)
    decreases |s| - from
  {
    if from + 2 >= |s| then None
    else if IsSeparator(s, from) then Some(from)
    else FirstSeparator(s, from + 1)
  }

  /**
   * The `jwks_error` text for an exception string: what follows the first
   * separator when the whole line matches the common error pattern, the
   * whole string otherwise.
   */
  function ErrorDetail(s: string): (r: string)
    ensures r == s || exists i | 1 <= i :: IsSeparator(s, i) && r == s[i + 2..]
    ensures s != [] ==> r != []
    ensures (exists k | 0 <= k < |s| :: IsLineTerminator(s[k])) ==> r == s
    ensures (forall k | 0 <= k < |s| :: !IsLineTerminator(s[k])) ==> forall i | 1 <= i && IsSeparator(s, i) :: r != s
    ensures (forall k | 0 <= k < |s| :: !IsLineTerminator(s[k])) ==>
      forall i | 1 <= i && IsSeparator(s, i) && (forall j | 1 <= j < i :: !IsSeparator(s, j)) :: r == s[i + 2..]
    ensures (forall i | 1 <= i :: !IsSeparator(s, i)) ==> r == s
  {
    var sep := FirstSeparator(s, 1);
    if sep.Some? && forall k | 0 <= k < |s| :: !IsLineTerminator(s[k]) then s[sep.value + 2..] else s
  }

  /** What execute reports to the host: carry on with the flow, or abort it. */
  datatype ExecutionResult = Succeeded | Aborted

  /** The context after setExceptionVariables: the flattened description and its error detail. */
  function WithExceptionVariables(vars: map<string, string>, e: Exception): (r: map<string, string>)
    ensures r.Keys == vars.Keys + {VarName("exception"), VarName("error")}
    ensures r[VarName("exception")] == FlattenNewlines(Describe(e))
    ensures r[VarName("error")] == ErrorDetail(FlattenNewlines(Describe(e)))
    ensures forall k | k in vars && k != VarName("exception") && k != VarName("error") :: r[k] == vars[k]
  {
    var error := FlattenNewlines(Describe(e));
    vars[VarName("exception") := error][VarName("error") := ErrorDetail(error)]
  }

  lemma {:induction false} FlattenWithoutNewlines(s: string)
    requires '\n' !in s
    ensures FlattenNewlines(s) == s
    decreases |s|
  {
    if s != [] {
      FlattenWithoutNewlines(s[1..]);
    }
  }

  predicate OnOneLine(s: string)
  {
    forall k | 0 <= k < |s| :: !IsLineTerminator(s[k])
  }

  /** The message both callouts give for an unset source variable fits on one line. */
  lemma NullSourceOnOneLine()
    ensures OnOneLine("source variable resolves to null")
  {
  }

  lemma OneLineAppend(a: string, b: string)
    requires OnOneLine(a) && OnOneLine(b)
    ensures OnOneLine(a + b)
  {
    forall k | 0 <= k < |a + b| ensures !IsLineTerminator((a + b)[k]) {
      if k < |a| {
        assert (a + b)[k] == a[k];
      } else {
        assert (a + b)[k] == b[k - |a|];
      }
    }
  }

  /** A description "Class: message" whose class name holds no separator reports the message as the error. */
  lemma ErrorDetailOfDescription(className: string, message: string)
    requires className != [] && ':' !in className && ';' !in className && OnOneLine(className)
    requires message != [] && OnOneLine(message)
    ensures ErrorDetail(className + ": " + message) == message
  {
    var s := className + ": " + message;
    var c := |className|;
    assert s[c] == ':' && s[c + 1] == ' ';
    assert IsSeparator(s, c);
    forall k | 1 <= k < c ensures !IsSeparator(s, k) {
      assert s[k] == className[k];
    }
    forall k | 0 <= k < |s| ensures !IsLineTerminator(s[k]) {
      if k < c {
        assert s[k] == className[k];
      } else if k >= c + 2 {
        assert s[k] == message[k - c - 2];
      }
    }
    assert s[c + 2..] == message;
  }

  /** A qualified Java class name: letters, digits, dots, underscores and dollar signs only. */
  predicate ClassNameChar(c: char)
  {
    'a' <= c <= 'z' || 'A' <= c <= 'Z' || '0' <= c <= '9' || c == '.' || c == '_' || c == '$'
  }

  lemma PlainClassName(name: string)
    requires name != [] && forall k | 0 <= k < |name| :: ClassNameChar(name[k])
    ensures ':' !in name && ';' !in name && '\n' !in name && OnOneLine(name)
  {
  }

  /** An exception of a plainly named class with a one-line message records that message as the error. */
  lemma MessageIsError(vars: map<string, string>, e: Exception)
    requires e.className != [] && forall k | 0 <= k < |e.className| :: ClassNameChar(e.className[k])
    requires e.message.Some? && e.message.value != [] && OnOneLine(e.message.value)
    ensures WithExceptionVariables(vars, e)[VarName("error")] == e.message.value
  {
    var name, message := e.className, e.message.value;
    var s := Describe(e);
    assert s == name + ": " + message;
    PlainClassName(name);
    assert '\n' !in s by {
      forall k | 0 <= k < |s| ensures s[k] != '\n' {
        if k < |name| {
          assert s[k] == name[k];
        } else if k >= |name| + 2 {
          assert s[k] == message[k - |name| - 2];
        }
      }
    }
    FlattenWithoutNewlines(s);
    ErrorDetailOfDescription(name, message);
  }

  /** An exception of a plainly named class without a message records its class name as the error. */
  lemma ClassNameIsError(vars: map<string, string>, e: Exception)
    requires e.className != [] && forall k | 0 <= k < |e.className| :: ClassNameChar(e.className[k])
    requires e.message.None?
    ensures WithExceptionVariables(vars, e)[VarName("error")] == e.className
  {
    var s := Describe(e);
    PlainClassName(s);
    FlattenWithoutNewlines(s);
    forall i | 1 <= i ensures !IsSeparator(s, i) {
      if i < |s| {
        assert s[i] in s;
      }
    }
  }

  /** An IllegalStateException records its own message as the error. */
  lemma IllegalStateError(vars: map<string, string>, message: string)
    requires message != [] && OnOneLine(message)
    ensures WithExceptionVariables(vars, IllegalState(message))[VarName("error")] == message
  {
    MessageIsError(vars, IllegalState(message));
  }

  // ---------------------------------------------------------------------
  // The message context
  // ---------------------------------------------------------------------

  /** The flow variables of one message exchange. */
  class MessageContext {
    var variables: map<string, string>

    constructor (initial: map<string, string>)
      ensures variables == initial
    {
      variables := initial;
    }

    function GetVariable(name: string): (r: Option<string>)
      reads this
      ensures r.Some? <==> name in variables
      ensures r.Some? ==> r.value == variables[name]
    {
      if name in variables then Some(variables[name]) else None
    }

    method SetVariable(name: string, value: string)
      modifies this
      ensures variables == old(variables)[name := value]
    {
      variables := variables[name := value];
    }
  }

  method SetExceptionVariables(e: Exception, ctx: MessageContext)
    modifies ctx
    ensures ctx.variables == WithExceptionVariables(old(ctx.variables), e)
  {
    var error := FlattenNewlines(Describe(e));
    ctx.SetVariable(VarName("exception"), error);
    ctx.SetVariable(VarName("error"), ErrorDetail(error));
  }

  /**
   * The context after a catch block: a stack trace only for exceptions the
   * IllegalStateException catch does not take, and only in debug mode.
   */
  function AfterCatch(vars: map<string, string>, e: Exception, debug: bool, stackTraceOf: Exception -> string): (r: map<string, string>)
    ensures (e.isIllegalState || !debug) ==> r == WithExceptionVariables(vars, e)
    ensures !e.isIllegalState && debug ==>
      r == WithExceptionVariables(vars[VarName("stacktrace") := stackTraceOf(e)], e)
  {
    if !e.isIllegalState && debug then
      WithExceptionVariables(vars[VarName("stacktrace") := stackTraceOf(e)], e)
    else WithExceptionVariables(vars, e)
  }

  /** The two catch blocks of execute: record the exception and abort. */
  method Catch(e: Exception, ctx: MessageContext, debug: bool, stackTraceOf: Exception -> string) returns (result: ExecutionResult)
    modifies ctx
    ensures result == Aborted
    ensures ctx.variables == AfterCatch(old(ctx.variables), e, debug, stackTraceOf)
  {
    if !e.isIllegalState && debug {
      ctx.SetVariable(VarName("stacktrace"), stackTraceOf(e));
    }
    SetExceptionVariables(e, ctx);
    return Aborted;
  }
}
