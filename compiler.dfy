/**
 * The string rewriting that prepares generated component code for
 * evaluation: `removeDefaultExport` strips the default export and reports the
 * exported name, and the import transformer turns each import declaration
 * into a destructuring of an object the evaluator passes in.
 */
module Compiler {
  import opened Wrappers
  import opened Text

  // ---------------------------------------------------------------------------
  // Character classes

  /** JavaScript's `\s` (and the set `String.prototype.trim` strips): white space and line terminators. */
  predicate IsSpace(c: char) {
    c == '\t' || c == '\n' || c == '\U{000B}' || c == '\U{000C}' || c == '\r' || c == ' '
    || c == '\U{00A0}' || c == '\U{1680}' || ('\U{2000}' <= c <= '\U{200A}')
    || c == '\U{2028}' || c == '\U{2029}' || c == '\U{202F}' || c == '\U{205F}'
    || c == '\U{3000}' || c == '\U{FEFF}'
  }

  /** `[A-Za-z0-9_]`. */
  predicate IsWord(c: char) {
    ('A' <= c <= 'Z') || ('a' <= c <= 'z') || ('0' <= c <= '9') || c == '_'
  }

  /** Where a greedy `\s*` starting at `i` stops. */
  function SkipSpaces(s: string, i: nat): nat
    decreases |s| - i
  {
    if i < |s| && IsSpace(s[i]) then SkipSpaces(s, i + 1) else i
  }

  lemma {:induction false} SkipSpacesSpec(s: string, i: nat)
    requires i <= |s|
    ensures i <= SkipSpaces(s, i) <= |s|
    ensures forall k :: i <= k < SkipSpaces(s, i) ==> IsSpace(s[k])
    ensures SkipSpaces(s, i) < |s| ==> !IsSpace(s[SkipSpaces(s, i)])
    decreases |s| - i
  {
    if i < |s| && IsSpace(s[i]) {
      SkipSpacesSpec(s, i + 1);
    }
  }

  /** Where a greedy `[A-Za-z0-9_]*` starting at `i` stops. */
  function WordEnd(s: string, i: nat): nat
    decreases |s| - i
  {
    if i < |s| && IsWord(s[i]) then WordEnd(s, i + 1) else i
  }

  lemma {:induction false} WordEndSpec(s: string, i: nat)
    requires i <= |s|
    ensures i <= WordEnd(s, i) <= |s|
    ensures forall k :: i <= k < WordEnd(s, i) ==> IsWord(s[k])
    ensures WordEnd(s, i) < |s| ==> !IsWord(s[WordEnd(s, i)])
    decreases |s| - i
  {
    if i < |s| && IsWord(s[i]) {
      WordEndSpec(s, i + 1);
    }
  }

  // ---------------------------------------------------------------------------
  // The three patterns, matched at a given position. Every quantified piece is
  // followed by a character its class excludes, so greedy matching is the only
  // way each pattern can match at a position.

  /**
   * `export\s+default\s+` at `p`: the index just past it. Shared prefix of the
   * three patterns.
   */
  function ExportDefaultAt(s: string, p: nat): Option<nat> {
    if !MatchesAt(s, "export", p) then None
    else
      var a := SkipSpaces(s, p + 6);
      if a == p + 6 || !MatchesAt(s, "default", a) then None
      else
        var b := SkipSpaces(s, a + 7);
        if b == a + 7 then None else Some(b)
  }

  lemma ExportDefaultAtBounds(s: string, p: nat)
    ensures ExportDefaultAt(s, p).Some? ==> p + 6 < ExportDefaultAt(s, p).value <= |s|
  {
    if MatchesAt(s, "export", p) {
      SkipSpacesSpec(s, p + 6);
      var a := SkipSpaces(s, p + 6);
      if MatchesAt(s, "default", a) {
        SkipSpacesSpec(s, a + 7);
      }
    }
  }

  /** `export\s+default\s+function` at `p`: the index just past `function`. */
  function KeywordAt(s: string, p: nat): Option<nat> {
    match ExportDefaultAt(s, p)
    case None => None
    case Some(b) => if MatchesAt(s, "function", b) then Some(b + 8) else None
  }

  /**
   * `export\s+default\s+function\s+([A-Za-z0-9_]+)\s*\([^)]*\)\s*{[^}]*}` at
   * `p`: the bounds of the captured name.
   */
  function DeclarationAt(s: string, p: nat): Option<(nat, nat)> {
    match KeywordAt(s, p)
    case None => None
    case Some(e) =>
      var f := SkipSpaces(s, e);
      var g := WordEnd(s, f);
      var h := SkipSpaces(s, g);
      if f == e || g == f || !(h < |s| && s[h] == '(') then None
      else
        match IndexOf(s, ")", h + 1)
        case None => None
        case Some(c) =>
          var k := SkipSpaces(s, c + 1);
          if !(k < |s| && s[k] == '{') || !Includes(s, "}", k + 1) then None
          else Some((f, g))
  }

  /**
   * `export\s+default\s+([A-Za-z0-9_]+);?` at `p`: the bounds of the captured
   * name and the end of the match.
   */
  function ExportNameAt(s: string, p: nat): Option<(nat, nat, nat)> {
    match ExportDefaultAt(s, p)
    case None => None
    case Some(f) =>
      var g := WordEnd(s, f);
      if g == f then None
      else if g < |s| && s[g] == ';' then Some((f, g, g + 1))
      else Some((f, g, g))
  }

  /** The leftmost position at or after `p` where `matcher` matches, and what it matched. */
  function FirstMatch<T>(matcher: (string, nat) -> Option<T>, s: string, p: nat): Option<(nat, T)>
    decreases |s| - p
  {
    if p > |s| then None
    else
      match matcher(s, p)
      case Some(m) => Some((p, m))
      case None => FirstMatch(matcher, s, p + 1)
  }

  /** FirstMatch finds the leftmost match, and finds one whenever there is one. */
  lemma {:induction false} FirstMatchSpec<T>(matcher: (string, nat) -> Option<T>, s: string, p: nat)
    ensures var r := FirstMatch(matcher, s, p);
            r.Some? ==> p <= r.value.0 <= |s| && matcher(s, r.value.0) == Some(r.value.1)
    ensures var r := FirstMatch(matcher, s, p);
            forall q :: p <= q <= |s| && (r.None? || q < r.value.0) ==> matcher(s, q).None?
    decreases |s| - p
  {
    if p <= |s| && matcher(s, p).None? {
      FirstMatchSpec(matcher, s, p + 1);
    }
  }

  /** A match with none before it is the one FirstMatch finds. */
  lemma FirstMatchIs<T>(matcher: (string, nat) -> Option<T>, s: string, p: nat, m: T)
    requires p <= |s| && matcher(s, p) == Some(m)
    requires forall q :: 0 <= q < p ==> matcher(s, q).None?
    ensures FirstMatch(matcher, s, 0) == Some((p, m))
  {
    FirstMatchSpec(matcher, s, 0);
  }

  /** With no match anywhere, FirstMatch finds nothing. */
  lemma FirstMatchIsNone<T>(matcher: (string, nat) -> Option<T>, s: string)
    requires forall q :: 0 <= q <= |s| ==> matcher(s, q).None?
    ensures FirstMatch(matcher, s, 0).None?
  {
    FirstMatchSpec(matcher, s, 0);
  }

  // ---------------------------------------------------------------------------
  // String.prototype.trim

  /** Where the trailing white space of `s[..b]` begins. */
  function TrailingStart(s: string, b: nat): nat
    requires b <= |s|
  {
    if b > 0 && IsSpace(s[b - 1]) then TrailingStart(s, b - 1) else b
  }

  lemma {:induction false} TrailingStartSpec(s: string, b: nat)
    requires b <= |s|
    ensures TrailingStart(s, b) <= b
    ensures forall k :: TrailingStart(s, b) <= k < b ==> IsSpace(s[k])
    ensures TrailingStart(s, b) > 0 ==> !IsSpace(s[TrailingStart(s, b) - 1])
  {
    if b > 0 && IsSpace(s[b - 1]) {
      TrailingStartSpec(s, b - 1);
    }
  }

  /** `s.trim()`: white space removed from both ends. */
  function Trim(s: string): string {
    var a := SkipSpaces(s, 0);
    var b := TrailingStart(s, |s|);
    if b <= a then [] else TrailingStartSpec(s, |s|); s[a..b]
  }

  /**
   * The trimmed string is a slice of the input with only white space cut away
   * on either side, and it neither starts nor ends with white space.
   */
  lemma TrimSpec(s: string)
    ensures exists a, b :: 0 <= a <= b <= |s| && Trim(s) == s[a..b]
                           && (forall k :: 0 <= k < a ==> IsSpace(s[k]))
                           && (forall k :: b <= k < |s| ==> IsSpace(s[k]))
    ensures |Trim(s)| > 0 ==> !IsSpace(Trim(s)[0]) && !IsSpace(Trim(s)[|Trim(s)| - 1])
  {
    SkipSpacesSpec(s, 0);
    TrailingStartSpec(s, |s|);
    var a := SkipSpaces(s, 0);
    var b := TrailingStart(s, |s|);
    if b <= a {
      assert Trim(s) == s[a..a];
    } else {
      assert Trim(s) == s[a..b];
    }
  }

  /** Neither end of `t` is white space. */
  predicate Trimmed(t: string) {
    |t| > 0 ==> !IsSpace(t[0]) && !IsSpace(t[|t| - 1])
  }

  /** Trimming twice is trimming once. */
  lemma TrimIdempotent(s: string)
    ensures Trim(Trim(s)) == Trim(s)
  {
    var t := Trim(s);
    TrimSpec(s);
    if |t| > 0 {
      assert SkipSpaces(t, 0) == 0;
      assert TrailingStart(t, |t|) == |t|;
      assert t[0..|t|] == t;
    }
  }

  // ---------------------------------------------------------------------------
  // removeDefaultExport

  datatype RemovedExport = RemovedExport(modifiedInput: string, exportedName: Option<string>)

  lemma KeywordBounds(s: string, p: nat)
    ensures KeywordAt(s, p).Some? ==> p <= KeywordAt(s, p).value <= |s|
  {
    ExportDefaultAtBounds(s, p);
  }

  /** A declaration match's name is a non-empty run of word characters inside the input. */
  lemma DeclarationName(s: string, p: nat)
    ensures DeclarationAt(s, p).Some? ==>
              var (f, g) := DeclarationAt(s, p).value;
              f < g <= |s| && forall k :: f <= k < g ==> IsWord(s[k])
  {
    KeywordBounds(s, p);
    match KeywordAt(s, p)
    case None =>
    case Some(e) =>
      SkipSpacesSpec(s, e);
      WordEndSpec(s, SkipSpaces(s, e));
  }

  /** An export-name match's name is a non-empty run of word characters; the match ends after it. */
  lemma ExportNameSpec(s: string, p: nat)
    ensures ExportNameAt(s, p).Some? ==>
              var (f, g, e) := ExportNameAt(s, p).value;
              p <= f < g <= e <= |s| && forall k :: f <= k < g ==> IsWord(s[k])
  {
    ExportDefaultAtBounds(s, p);
    match ExportDefaultAt(s, p)
    case None =>
    case Some(f) => WordEndSpec(s, f);
  }

  /** `input.replace(/export\s+default\s+function/, "function").trim()`: only the first occurrence is rewritten. */
  function RewriteKeyword(input: string): string {
    match FirstMatch<nat>(KeywordAt, input, 0)
    case Some((p, e)) =>
      FirstMatchSpec<nat>(KeywordAt, input, 0);
      KeywordBounds(input, p);
      Trim(input[..p] + "function" + input[e..])
    case None => Trim(input)
  }

  /**
   * The declaration form wins: its name is reported and the first
   * `export default function` of the input is rewritten to `function`. Failing
   * that, the first `export default Name;?` is deleted. Either way the result
   * is trimmed; with neither form the input comes back as it was.
   */
  function RemoveDefaultExport(input: string): RemovedExport {
    match FirstMatch<(nat, nat)>(DeclarationAt, input, 0)
    case Some((q, (f, g))) =>
      FirstMatchSpec<(nat, nat)>(DeclarationAt, input, 0);
      DeclarationName(input, q);
      RemovedExport(RewriteKeyword(input), Some(input[f..g]))
    case None =>
      match FirstMatch<(nat, nat, nat)>(ExportNameAt, input, 0)
      case Some((p, (f, g, e))) =>
        FirstMatchSpec<(nat, nat, nat)>(ExportNameAt, input, 0);
        ExportNameSpec(input, p);
        RemovedExport(Trim(input[..p] + input[e..]), Some(input[f..g]))
      case None => RemovedExport(input, None)
  }

  /** Any reported name is non-empty and made of `[A-Za-z0-9_]` only. */
  lemma ExportedNameIsWord(input: string)
    ensures RemoveDefaultExport(input).exportedName.Some? ==>
              var name := RemoveDefaultExport(input).exportedName.value;
              |name| > 0 && forall k :: 0 <= k < |name| ==> IsWord(name[k])
  {
    match FirstMatch<(nat, nat)>(DeclarationAt, input, 0)
    case Some((q, _)) =>
      FirstMatchSpec<(nat, nat)>(DeclarationAt, input, 0);
      DeclarationName(input, q);
    case None =>
      match FirstMatch<(nat, nat, nat)>(ExportNameAt, input, 0)
      case Some((p, _)) =>
        FirstMatchSpec<(nat, nat, nat)>(ExportNameAt, input, 0);
        ExportNameSpec(input, p);
      case None =>
  }

  /** No name is reported exactly when neither pattern matches anywhere; the input then comes back untrimmed. */
  lemma NoExportUnchanged(input: string)
    ensures RemoveDefaultExport(input).exportedName.None? <==>
              forall p: nat :: p <= |input| ==> DeclarationAt(input, p).None? && ExportNameAt(input, p).None?
    ensures RemoveDefaultExport(input).exportedName.None? ==> RemoveDefaultExport(input).modifiedInput == input
  {
    FirstMatchSpec<(nat, nat)>(DeclarationAt, input, 0);
    FirstMatchSpec<(nat, nat, nat)>(ExportNameAt, input, 0);
  }

  /** Trimming leaves no whitespace at either end. */
  lemma TrimIsTrimmed(s: string)
    ensures Trimmed(Trim(s))
  {
    TrimSpec(s);
  }

  /** The keyword rewrite always yields trimmed code. */
  lemma RewriteKeywordTrimmed(input: string)
    ensures Trimmed(RewriteKeyword(input))
  {
    match FirstMatch<nat>(KeywordAt, input, 0) {
      case Some((p, e)) =>
        FirstMatchSpec<nat>(KeywordAt, input, 0);
        KeywordBounds(input, p);
        TrimIsTrimmed(input[..p] + "function" + input[e..]);
      case None => TrimIsTrimmed(input);
    }
  }

  /** Whenever a name is reported, the result is trimmed. */
  lemma ExportRemovedIsTrimmed(input: string)
    ensures var r := RemoveDefaultExport(input);
            r.exportedName.Some? ==> Trimmed(r.modifiedInput)
  {
    match FirstMatch<(nat, nat)>(DeclarationAt, input, 0)
    case Some(_) =>
      RewriteKeywordTrimmed(input);
    case None =>
      match FirstMatch<(nat, nat, nat)>(ExportNameAt, input, 0)
      case Some((p, (f, g, e))) =>
        FirstMatchSpec<(nat, nat, nat)>(ExportNameAt, input, 0);
        ExportNameSpec(input, p);
        TrimIsTrimmed(input[..p] + input[e..]);
      case None =>
  }

  /**
   * The keyword rewrite replaces the first `export default function` by
   * `function` and trims; with a declaration match anywhere, that is the code
   * returned.
   */
  lemma DeclarationRewritesFirstKeyword(input: string, kp: nat, ke: nat)
    requires kp <= |input| && KeywordAt(input, kp) == Some(ke)
    requires forall r :: 0 <= r < kp ==> KeywordAt(input, r).None?
    ensures kp <= ke <= |input|
    ensures RewriteKeyword(input) == Trim(input[..kp] + "function" + input[ke..])
    ensures forall q :: 0 <= q <= |input| && DeclarationAt(input, q).Some? ==>
              RemoveDefaultExport(input).modifiedInput == Trim(input[..kp] + "function" + input[ke..])
  {
    KeywordBounds(input, kp);
    FirstMatchIs<nat>(KeywordAt, input, kp, ke);
    FirstMatchSpec<(nat, nat)>(DeclarationAt, input, 0);
    DeclarationTakesPrecedence(input);
  }

  /**
   * Without a declaration match anywhere, the leftmost `export default Name;?`
   * supplies the name and is deleted from the input, which is then trimmed.
   */
  lemma FallbackRemovesLeftmost(input: string, p: nat, f: nat, g: nat, e: nat)
    requires forall q :: 0 <= q <= |input| ==> DeclarationAt(input, q).None?
    requires p <= |input| && ExportNameAt(input, p) == Some((f, g, e))
    requires forall q :: 0 <= q < p ==> ExportNameAt(input, q).None?
    ensures p <= f < g <= e <= |input|
    ensures RemoveDefaultExport(input) == RemovedExport(Trim(input[..p] + input[e..]), Some(input[f..g]))
  {
    ExportNameSpec(input, p);
    FirstMatchIsNone<(nat, nat)>(DeclarationAt, input);
    FirstMatchIs<(nat, nat, nat)>(ExportNameAt, input, p, (f, g, e));
  }

  /**
   * The declaration form takes precedence: when it matches anywhere, its
   * leftmost match (FirstMatchSpec) supplies the name and the keyword rewrite
   * supplies the code, whatever the other pattern would have matched.
   */
  lemma DeclarationTakesPrecedence(input: string)
    ensures var d := FirstMatch<(nat, nat)>(DeclarationAt, input, 0);
            d.Some? ==>
              d.value.1.0 < d.value.1.1 <= |input|
              && RemoveDefaultExport(input) == RemovedExport(RewriteKeyword(input), Some(input[d.value.1.0..d.value.1.1]))
  {
    FirstMatchSpec<(nat, nat)>(DeclarationAt, input, 0);
    var d := FirstMatch<(nat, nat)>(DeclarationAt, input, 0);
    if d.Some? {
      DeclarationName(input, d.value.0);
      assert RemoveDefaultExport(input).exportedName == Some(input[d.value.1.0..d.value.1.1]);
    }
  }

  /**
   * The rewrite happens at the first `export default function` of the input,
   * which lies at or before the leftmost declaration match and need not be
   * the same occurrence.
   */
  lemma RewriteNotAfterDeclaration(input: string, q: nat)
    requires q <= |input| && DeclarationAt(input, q).Some?
    ensures var k := FirstMatch<nat>(KeywordAt, input, 0);
            k.Some? && k.value.0 <= q
  {
    assert KeywordAt(input, q).Some?;
    FirstMatchSpec<nat>(KeywordAt, input, 0);
  }

  /** WordEnd stops exactly at the end of a maximal run of word characters. */
  lemma {:induction false} WordEndAt(s: string, i: nat, j: nat)
    requires i <= j <= |s| && (forall k :: i <= k < j ==> IsWord(s[k]))
    requires j == |s| || !IsWord(s[j])
    ensures WordEnd(s, i) == j
    decreases j - i
  {
    if i < j {
      WordEndAt(s, i + 1, j);
    }
  }

  /** `export default ` followed by something other than white space matches the shared prefix. */
  lemma ExportDefaultAtStart(s: string)
    requires |s| > 15 && s[..15] == "export default " && !IsSpace(s[15])
    ensures ExportDefaultAt(s, 0) == Some(15)
  {
    assert s[0..6] == s[..15][0..6];
    assert s[7..14] == s[..15][7..14];
    assert s[6] == s[..15][6] == ' ' && s[14] == s[..15][14] == ' ';
    assert s[7] == s[..15][7] == 'd';
    assert SkipSpaces(s, 6) == 7;
    assert SkipSpaces(s, 14) == 15;
  }

  /** Without a declaration match, a fallback match at the very start supplies the name. */
  lemma FallbackAtStart(s: string)
    requires FirstMatch<(nat, nat)>(DeclarationAt, s, 0).None?
    requires ExportNameAt(s, 0).Some?
    ensures ExportNameAt(s, 0).value.0 <= ExportNameAt(s, 0).value.1 <= |s|
    ensures RemoveDefaultExport(s).exportedName == Some(s[ExportNameAt(s, 0).value.0..ExportNameAt(s, 0).value.1])
  {
    ExportNameSpec(s, 0);
    assert FirstMatch<(nat, nat, nat)>(ExportNameAt, s, 0) == Some((0, ExportNameAt(s, 0).value));
  }

  /** The fallback pattern reads `function` as the name when `export default function` is followed by a non-word character. */
  lemma KeywordReadAsName(s: string)
    requires |s| >= 23 && s[..23] == "export default function" && (|s| == 23 || !IsWord(s[23]))
    ensures ExportNameAt(s, 0).Some? && ExportNameAt(s, 0).value.0 == 15 && ExportNameAt(s, 0).value.1 == 23
  {
    assert s[..15] == s[..23][..15] == "export default ";
    assert s[15] == s[..23][15] == 'f';
    ExportDefaultAtStart(s);
    assert forall k :: 15 <= k < 23 ==> s[k] == s[..23][k];
    WordEndAt(s, 15, 23);
  }

  /**
   * When the declaration form fails (for instance on parameters that hold a
   * `)` before the body), the fallback pattern takes the keyword `function`
   * itself for the exported name.
   */
  lemma FallbackTakesKeywordAsName(s: string)
    requires |s| >= 23 && s[..23] == "export default function" && (|s| == 23 || !IsWord(s[23]))
    requires FirstMatch<(nat, nat)>(DeclarationAt, s, 0).None?
    ensures RemoveDefaultExport(s).exportedName == Some("function")
  {
    KeywordReadAsName(s);
    FallbackAtStart(s);
    KeywordSlice(s);
  }

  /** The keyword of a text that starts with `export default function`. */
  lemma KeywordSlice(s: string)
    requires |s| >= 23 && s[..23] == "export default function"
    ensures s[15..23] == "function"
  {
    assert s[15..23] == s[..23][15..23];
  }

  // ---------------------------------------------------------------------------
  // importTransformerPlugin

  /** The imported name of a named specifier: an identifier or a string literal. */
  datatype ModuleExportName = Identifier(name: string) | StringLiteral(value: string)

  datatype ImportSpecifier =
    | Named(imported: ModuleExportName, local: string)
    | Default(local: string)
    | Namespace(local: string)

  datatype ImportDeclaration = ImportDeclaration(source: string, specifiers: seq<ImportSpecifier>)

  /** `{ key: value }` in a destructuring pattern; shorthand when written `{ key }`. */
  datatype ObjectProperty = ObjectProperty(key: string, value: string, shorthand: bool)

  /** The statements the transformer distinguishes. */
  datatype Statement =
    | Import(decl: ImportDeclaration)
    | ConstDestructure(properties: seq<ObjectProperty>, objectName: string)
    | Other(code: string)

  /** The object the evaluator provides for an import source. */
  function ObjectName(source: string): string {
    if source == "react" then "React"
    else if "@/components/ui" <= source then "uiComponents"
    else if source == "lucide-react" then "lucide"
    else if source == "grist-hooks" then "gristHooks"
    else if source == "jotai" then "jotai"
    else if source == "util-hooks" then "utilHooks"
    else source
  }

  /** The sources the transformer renames. */
  predicate Renamed(source: string) {
    source in {"react", "lucide-react", "grist-hooks", "util-hooks"} || "@/components/ui" <= source
  }

  /** A source is passed through as its own object name exactly when it is not one of the renamed ones. */
  lemma ObjectNameIdentity(source: string)
    ensures ObjectName(source) == source <==> !Renamed(source)
  {
    if "@/components/ui" <= source {
      assert |source| >= 15;
      assert source != "uiComponents";
    }
  }

  function ImportedName(n: ModuleExportName): string {
    match n
    case Identifier(name) => name
    case StringLiteral(value) => value
  }

  /** The property for one specifier: named specifiers only. */
  function PropertyOf(spec: ImportSpecifier): Option<ObjectProperty> {
    match spec
    case Named(imported, local) =>
      Some(ObjectProperty(ImportedName(imported), local, ImportedName(imported) == local))
    case _ => None
  }

  /** The `map` then `filter` over the specifiers. */
  function Properties(specs: seq<ImportSpecifier>): seq<ObjectProperty> {
    if specs == [] then []
    else
      match PropertyOf(specs[0])
      case Some(p) => [p] + Properties(specs[1..])
      case None => Properties(specs[1..])
  }

  /** The named specifiers, in order. */
  function NamedOnly(specs: seq<ImportSpecifier>): (r: seq<ImportSpecifier>)
    ensures forall k :: 0 <= k < |r| ==> r[k].Named?
  {
    if specs == [] then []
    else if specs[0].Named? then [specs[0]] + NamedOnly(specs[1..])
    else NamedOnly(specs[1..])
  }

  /** The properties are built from the specifiers piece by piece. */
  lemma {:induction false} PropertiesAppend(a: seq<ImportSpecifier>, b: seq<ImportSpecifier>)
    ensures Properties(a + b) == Properties(a) + Properties(b)
  {
    if a == [] {
      assert a + b == b;
    } else {
      assert (a + b)[1..] == a[1..] + b;
      PropertiesAppend(a[1..], b);
    }
  }

  /**
   * One property per named specifier, in order, keyed by the imported name and
   * bound to the local name; default and namespace specifiers are dropped.
   */
  lemma {:induction false} PropertiesOfNamed(specs: seq<ImportSpecifier>)
    ensures |Properties(specs)| == |NamedOnly(specs)|
    ensures forall k :: 0 <= k < |Properties(specs)| ==>
              Properties(specs)[k].key == ImportedName(NamedOnly(specs)[k].imported)
              && Properties(specs)[k].value == NamedOnly(specs)[k].local
  {
    if specs != [] {
      PropertiesOfNamed(specs[1..]);
    }
  }

  /** A property is shorthand exactly when the imported and local names agree. */
  lemma {:induction false} ShorthandIff(specs: seq<ImportSpecifier>)
    ensures forall k :: 0 <= k < |Properties(specs)| ==>
              (Properties(specs)[k].shorthand <==> Properties(specs)[k].key == Properties(specs)[k].value)
  {
    if specs != [] {
      ShorthandIff(specs[1..]);
    }
  }

  /** The `ImportDeclaration` visitor: declarations without specifiers are left alone. */
  function TransformImport(decl: ImportDeclaration): Statement {
    if |decl.specifiers| == 0 then Import(decl)
    else ConstDestructure(Properties(decl.specifiers), ObjectName(decl.source))
  }

  /** The plugin applied to a program's top-level statements. */
  function TransformProgram(program: seq<Statement>): seq<Statement> {
    seq(|program|, i requires 0 <= i < |program| =>
      match program[i]
      case Import(decl) => TransformImport(decl)
      case _ => program[i])
  }

  /**
   * Statement by statement: every import with specifiers becomes the
   * destructuring of its properties (PropertiesOfNamed) from its source's
   * object (ObjectNameIdentity), every import without one stays, and
   * nothing else changes.
   */
  lemma TransformProgramSpec(program: seq<Statement>)
    ensures |TransformProgram(program)| == |program|
    ensures forall i :: 0 <= i < |program| && !program[i].Import? ==> TransformProgram(program)[i] == program[i]
    ensures forall i :: 0 <= i < |program| && program[i].Import? && program[i].decl.specifiers == [] ==>
              TransformProgram(program)[i] == program[i]
    ensures forall i :: 0 <= i < |program| && program[i].Import? && program[i].decl.specifiers != [] ==>
              TransformProgram(program)[i]
                == ConstDestructure(Properties(program[i].decl.specifiers), ObjectName(program[i].decl.source))
    ensures forall i :: 0 <= i < |TransformProgram(program)| && TransformProgram(program)[i].Import? ==>
              TransformProgram(program)[i].decl.specifiers == []
  {
  }

  /** An import with only a default or namespace binding becomes an empty destructuring: the binding is lost. */
  lemma DefaultImportDropped(source: string, local: string)
    ensures TransformImport(ImportDeclaration(source, [Default(local)])) == ConstDestructure([], ObjectName(source))
    ensures TransformImport(ImportDeclaration(source, [Namespace(local)])) == ConstDestructure([], ObjectName(source))
  {
    assert Properties([Default(local)]) == [];
    assert Properties([Namespace(local)]) == [];
  }
}
