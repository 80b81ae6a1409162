/** The line translator of src/index.ts: what `parseLine` emits for one line of the cleaned
    text, as a function of the line, the options and the current `syntax`. The effect on
    `hasPackage` and the step-by-step form with its local flags belong to `Document.Parser`. */
module LineTranslator {
  import opened Wrappers
  import opened Text
  import opened Tokenizer
  import opened TypeMapper
  import opened ChangeCase
  import opened RpcParser
  import opened SyntaxFilter

  /** The options `parse` hands to every call of `parseLine`, with the case conversions. */
  datatype LineConfig = LineConfig(
    keepComments: bool, behaviour: StreamBehaviour, stripEmptyLines: bool, casing: CaseConverter)

  /** `tokens[1].replace(...)` on a `package` line with no name reads a property of
      `undefined`, which throws a `TypeError`. */
  datatype LineError = PackageNameMissing

  /** `tokens[i]`: `None` stands for `undefined` past the end. */
  function TokenAt(tokens: seq<string>, i: nat): (r: Option<string>)
    ensures r.Some? <==> i < |tokens|
    ensures r.Some? ==> r.value == tokens[i]
  {
    if i < |tokens| then Some(tokens[i]) else None
  }

  /** A possibly undefined token inside a template literal. */
  function Interpolate(t: Option<string>): string {
    if t.Some? then t.value else "undefined"
  }

  /** `toCase.camel` of a possibly undefined token: change-case turns `undefined` into the
      empty string before converting it. */
  function CamelOf(casing: CaseConverter, t: Option<string>): string {
    casing.camel(t.GetOr(""))
  }

  /** `convertToTypescriptTypes` applied to a possibly undefined token: the lookup of
      `undefined` fails and `undefined` itself is returned. */
  function TypeOf(t: Option<string>): string {
    if t.Some? then ConvertToTypescriptType(t.value) else "undefined"
  }

  /** The field line of src/index.ts line 179, from the tokens left once a qualifier is
      shifted off: the name is the second token and the type the first. */
  function FieldLine(tokens: seq<string>, isOptional: bool, isRepeated: bool, casing: CaseConverter): string {
    CamelOf(casing, TokenAt(tokens, 1)) + (if isOptional then "?" else "") + ": "
    + TypeOf(TokenAt(tokens, 0)) + (if isRepeated then "[]" else "")
  }

  predicate IsQualifier(t: Option<string>) {
    t == Some("required") || t == Some("optional") || t == Some("repeated")
  }

  /** The first tokens that select a line kind other than a field. */
  predicate IsSpecialHead(t: Option<string>) {
    t == Some("//") || t == Some("}") || t == Some("message") || t == Some("service")
    || t == Some("rpc") || t == Some("package")
  }

  /** The line is one `parseLine` hands to its `package` branch. */
  predicate IsPackageLine(line: string) {
    line != [] && TokenAt(Tokenize(line), 0) == Some("package")
  }

  /** `parseLine`: case by case, the output for one line. */
  function LineOutput(line: string, cfg: LineConfig, syntax: string): Result<string, LineError> {
    if line == [] then Ok(if cfg.stripEmptyLines then Marker else [])
    else
      var tokens := Tokenize(line);
      var head := TokenAt(tokens, 0);
      if head == Some("//") then Ok(if cfg.keepComments then line else Marker)
      else if head == Some("}") then Ok("}")
      else if head == Some("message") || head == Some("service") then
        Ok("export interface " + Interpolate(TokenAt(tokens, 1)) + "Service {")
      else if head == Some("rpc") then Ok(ParseRpcLine(line, cfg.behaviour, cfg.casing))
      else if head == Some("package") then
        if |tokens| < 2 then Err(PackageNameMissing)
        else Ok("export namespace " + cfg.casing.pascal(ReplaceFirst(tokens[1], ';', "")) + " {")
      else
        var rest := if IsQualifier(head) then tokens[1..] else tokens;
        var isOptional := if head == Some("required") then false
                          else if head == Some("optional") then true
                          else syntax == "proto3";
        Ok(FieldLine(rest, isOptional, head == Some("repeated"), cfg.casing))
  }

  // ------------------------------------------------------------------ the fixed-output lines

  /** An empty line becomes the marker when empty lines are stripped and stays empty
      otherwise. */
  lemma EmptyLine(cfg: LineConfig, syntax: string)
    ensures cfg.stripEmptyLines ==> LineOutput([], cfg, syntax) == Ok(Marker)
    ensures !cfg.stripEmptyLines ==> LineOutput([], cfg, syntax) == Ok([])
  {
  }

  /** A line of spaces is not empty: it is a field line with no tokens. */
  lemma BlankLineIsField(line: string, cfg: LineConfig, syntax: string)
    requires line != [] && AllWhitespace(line)
    ensures LineOutput(line, cfg, syntax) == Ok(cfg.casing.camel("") + (if syntax == "proto3" then "?" else "") + ": undefined")
  {
    TokenizeBlank(line);
    var q := if syntax == "proto3" then "?" else "";
    assert TokenAt(Tokenize(line), 0) == None && TokenAt(Tokenize(line), 1) == None;
    assert FieldLine([], syntax == "proto3", false, cfg.casing) == cfg.casing.camel("") + q + ": " + "undefined";
    assert cfg.casing.camel("") + q + ": " + "undefined" == cfg.casing.camel("") + q + ": undefined";
  }

  /** A comment line is kept verbatim when comments are kept and becomes the marker
      otherwise. */
  lemma CommentLine(line: string, cfg: LineConfig, syntax: string)
    requires line != [] && TokenAt(Tokenize(line), 0) == Some("//")
    ensures LineOutput(line, cfg, syntax) == Ok(if cfg.keepComments then line else Marker)
  {
  }

  /** A line that opens with `}` closes a block, whatever else it holds and whatever the
      options. */
  lemma CloseLine(line: string, cfg: LineConfig, syntax: string)
    requires line != [] && TokenAt(Tokenize(line), 0) == Some("}")
    ensures LineOutput(line, cfg, syntax) == Ok("}")
  {
  }

  /** `message` and `service` both open an interface named after the second token with a
      `Service` suffix; a missing name reads `undefined`. */
  lemma InterfaceLine(line: string, cfg: LineConfig, syntax: string)
    requires line != [] && (TokenAt(Tokenize(line), 0) == Some("message") || TokenAt(Tokenize(line), 0) == Some("service"))
    ensures |Tokenize(line)| >= 2 ==> LineOutput(line, cfg, syntax) == Ok("export interface " + Tokenize(line)[1] + "Service {")
    ensures |Tokenize(line)| < 2 ==> LineOutput(line, cfg, syntax) == Ok("export interface undefinedService {")
  {
    assert "export interface " + "undefined" + "Service {" == "export interface undefinedService {";
  }

  /** An `rpc` line is handed whole to `parseRpcLine`. */
  lemma RpcLine(line: string, cfg: LineConfig, syntax: string)
    requires line != [] && TokenAt(Tokenize(line), 0) == Some("rpc")
    ensures LineOutput(line, cfg, syntax) == Ok(ParseRpcLine(line, cfg.behaviour, cfg.casing))
  {
  }

  /** A `package` line opens a namespace named after the pascal-cased second token with its
      first `;` removed, and throws when there is no second token. */
  lemma PackageLine(line: string, cfg: LineConfig, syntax: string)
    requires IsPackageLine(line)
    ensures |Tokenize(line)| < 2 <==> LineOutput(line, cfg, syntax).Err?
    ensures |Tokenize(line)| >= 2 ==>
      LineOutput(line, cfg, syntax)
      == Ok("export namespace " + cfg.casing.pascal(ReplaceFirst(Tokenize(line)[1], ';', "")) + " {")
  {
  }

  /** Only a `package` line can fail. */
  lemma OnlyPackageFails(line: string, cfg: LineConfig, syntax: string)
    requires LineOutput(line, cfg, syntax).Err?
    ensures IsPackageLine(line) && |Tokenize(line)| < 2
  {
  }

  // ------------------------------------------------------------------ field lines

  /** A field line carries `?` exactly when it is qualified `optional`, or when `syntax` is
      `proto3` and it is not qualified `required`; it carries `[]` exactly when it is
      qualified `repeated`. The qualifier is shifted off before the type and name are read. */
  lemma FieldMarks(line: string, cfg: LineConfig, syntax: string)
    requires line != [] && !IsSpecialHead(TokenAt(Tokenize(line), 0))
    ensures var tokens := Tokenize(line);
      var head := TokenAt(tokens, 0);
      LineOutput(line, cfg, syntax) == Ok(FieldLine(
        if IsQualifier(head) then tokens[1..] else tokens,
        head == Some("optional") || (syntax == "proto3" && head != Some("required")),
        head == Some("repeated"),
        cfg.casing))
  {
  }

  /** What the two flags add to a field line: `?` right after the name exactly when the
      field is optional, and `[]` after the type when it is repeated. */
  lemma FieldLineMarks(tokens: seq<string>, isOptional: bool, isRepeated: bool, casing: CaseConverter)
    ensures var name := CamelOf(casing, TokenAt(tokens, 1));
      var r := FieldLine(tokens, isOptional, isRepeated, casing);
      |name| < |r| && r[..|name|] == name && (r[|name|] == '?' <==> isOptional)
    ensures var r := FieldLine(tokens, isOptional, isRepeated, casing);
      var ty := TypeOf(TokenAt(tokens, 0));
      if isRepeated then |r| >= |ty| + 2 && r[|r| - |ty| - 2..] == ty + "[]"
      else |r| >= |ty| && r[|r| - |ty|..] == ty
  {
    var name := CamelOf(casing, TokenAt(tokens, 1));
    var ty := TypeOf(TokenAt(tokens, 0));
    var r := FieldLine(tokens, isOptional, isRepeated, casing);
    var mark := if isOptional then "?" else "";
    var suffix := if isRepeated then "[]" else "";
    assert r == name + (mark + ": ") + ty + suffix;
    assert r[..|name|] == name;
    assert r[|name|] == (mark + ": ")[0];
    assert r[|r| - |ty| - |suffix|..] == ty + suffix;
  }

  /** Under `proto3` a `repeated` field is also marked optional. */
  lemma Proto3RepeatedIsOptional(line: string, cfg: LineConfig)
    requires line != [] && TokenAt(Tokenize(line), 0) == Some("repeated")
    ensures LineOutput(line, cfg, "proto3") == Ok(FieldLine(Tokenize(line)[1..], true, true, cfg.casing))
  {
    FieldMarks(line, cfg, "proto3");
  }

  /** The words of the example field `repeated string tags = 1;`. */
  lemma TagsFieldTokens(line: string)
    requires line == "repeated string tags = 1;"
    ensures Tokenize(line) == ["repeated", "string", "tags", "=", "1;"]
  {
    var words := ["repeated", "string", "tags", "=", "1;"];
    assert line == Join(words, " ");
    TokenizeWords(words);
  }

  /** The example field `repeated string tags = 1;`: optional under `proto3` only, and an
      array of strings under both. */
  lemma RepeatedFieldExample(line: string, cfg: LineConfig)
    requires line == "repeated string tags = 1;"
    ensures LineOutput(line, cfg, "proto3") == Ok(cfg.casing.camel("tags") + "?: string[]")
    ensures LineOutput(line, cfg, "proto2") == Ok(cfg.casing.camel("tags") + ": string[]")
  {
    TagsFieldTokens(line);
    FieldMarks(line, cfg, "proto3");
    FieldMarks(line, cfg, "proto2");
    TagsFieldLines(Tokenize(line)[1..], cfg.casing);
  }

  lemma TagsFieldLines(rest: seq<string>, casing: CaseConverter)
    requires rest == ["string", "tags", "=", "1;"]
    ensures FieldLine(rest, true, true, casing) == casing.camel("tags") + "?: string[]"
    ensures FieldLine(rest, false, true, casing) == casing.camel("tags") + ": string[]"
  {
    assert TokenAt(rest, 1) == Some("tags") && TokenAt(rest, 0) == Some("string");
    assert TypeOf(TokenAt(rest, 0)) == "string";
    var name := casing.camel("tags");
    assert FieldLine(rest, true, true, casing) == name + "?" + ": " + "string" + "[]";
    assert name + "?" + ": " + "string" + "[]" == name + "?: string[]";
    assert FieldLine(rest, false, true, casing) == name + "" + ": " + "string" + "[]";
    assert name + "" + ": " + "string" + "[]" == name + ": string[]";
  }

  // ------------------------------------------------------------------ marked lines

  /** A line whose text, once trimmed, begins with the marker is translated into a line that
      holds the marker, whatever the options and the syntax: it is a field line whose type is
      its first token, which no scalar name matches. */
  lemma MarkedLineStaysMarked(line: string, cfg: LineConfig, syntax: string)
    requires |Marker| <= |Trim(line)| && Trim(line)[..|Marker|] == Marker
    ensures LineOutput(line, cfg, syntax).Ok?
    ensures Contains(LineOutput(line, cfg, syntax).value, Marker)
  {
    MarkedHead(line);
    FieldMarks(line, cfg, syntax);
    ForeignTypeKept(Tokenize(line), syntax == "proto3", cfg.casing);
  }

  /** The first token of such a line begins with the marker, so it is neither a line kind
      nor a qualifier. */
  lemma MarkedHead(line: string)
    requires |Marker| <= |Trim(line)| && Trim(line)[..|Marker|] == Marker
    ensures line != [] && Tokenize(line) != []
    ensures |Marker| <= |Tokenize(line)[0]| && Tokenize(line)[0][..|Marker|] == Marker
    ensures !IsSpecialHead(TokenAt(Tokenize(line), 0)) && !IsQualifier(TokenAt(Tokenize(line), 0))
  {
    assert line != [] by {
      assert |Trim(line)| <= |line|;
    }
    FirstTokenPrefix(line, Marker);
    assert Tokenize(line)[0][0] == '-';
  }

  /** A field line whose type token begins with the marker holds the marker. */
  lemma ForeignTypeKept(tokens: seq<string>, isOptional: bool, casing: CaseConverter)
    requires tokens != [] && |Marker| <= |tokens[0]| && tokens[0][..|Marker|] == Marker
    ensures Contains(FieldLine(tokens, isOptional, false, casing), Marker)
  {
    var head := tokens[0];
    ConvertKeepsForeign(head);
    assert head == Marker + head[|Marker|..];
    var name := CamelOf(casing, TokenAt(tokens, 1));
    var q := if isOptional then "?" else "";
    var a := "";
    assert FieldLine(tokens, isOptional, false, casing) == (name + q + ": ") + Marker + (head[|Marker|..] + a);
    ContainsInfix(name + q + ": ", Marker, head[|Marker|..] + a);
  }

  /** A comment line that holds the marker holds it after translation too, kept or not. */
  lemma MarkedCommentStaysMarked(line: string, cfg: LineConfig, syntax: string)
    requires line != [] && TokenAt(Tokenize(line), 0) == Some("//") && Contains(line, Marker)
    ensures LineOutput(line, cfg, syntax).Ok? && Contains(LineOutput(line, cfg, syntax).value, Marker)
  {
    CommentLine(line, cfg, syntax);
    if !cfg.keepComments {
      MarkerHoldsMarker();
    }
  }

  lemma MarkerHoldsMarker()
    ensures Contains(Marker, Marker)
  {
    ContainsInfix([], Marker, []);
    assert [] + Marker + [] == Marker;
  }

  // ------------------------------------------------------------------ keywords past the start

  /** A field line with `options` in a trailing comment survives the filter: once stripped,
      its tokens up to the comment are read as a field, and the marker that replaced the
      comment's text is not part of the output. */
  lemma TrailingKeywordKept(line: string, cfg: LineConfig)
    requires line == "string note = 1; // options"
    ensures LineOutput(StripUselessSyntax(line), cfg, "proto3") == Ok(cfg.casing.camel("note") + "?: string")
  {
    TrailingKeywordStripped(line);
    var stripped := StripUselessSyntax(line);
    NoteFieldTokens(stripped);
    FieldMarks(stripped, cfg, "proto3");
    NoteFieldLine(Tokenize(stripped), cfg.casing);
  }

  lemma NoteFieldTokens(line: string)
    requires line == "string note = 1; // " + Marker
    ensures Tokenize(line) == ["string", "note", "=", "1;", "//", Marker]
  {
    var words := ["string", "note", "=", "1;", "//", Marker];
    assert Join(words[4..], " ") == "//" + " " + Marker;
    assert Join(words[3..], " ") == "1;" + " " + ("//" + " " + Marker);
    assert Join(words[2..], " ") == "=" + " " + Join(words[3..], " ");
    assert Join(words[1..], " ") == "note" + " " + Join(words[2..], " ");
    assert Join(words, " ") == "string" + " " + Join(words[1..], " ");
    assert line == Join(words, " ");
    TokenizeWords(words);
  }

  lemma NoteFieldLine(tokens: seq<string>, casing: CaseConverter)
    requires tokens == ["string", "note", "=", "1;", "//", Marker]
    ensures FieldLine(tokens, true, false, casing) == casing.camel("note") + "?: string"
  {
    assert TokenAt(tokens, 1) == Some("note") && TokenAt(tokens, 0) == Some("string");
    assert TypeOf(TokenAt(tokens, 0)) == "string";
    var name := casing.camel("note");
    assert FieldLine(tokens, true, false, casing) == name + "?" + ": " + "string" + "";
    assert name + "?" + ": " + "string" + "" == name + "?: string";
  }

  /** A message named `Options` opens an interface whose name is the marker, so the filter
      drops that line while the block's closing `}` stays. */
  lemma MessageNameMarked(line: string, cfg: LineConfig, syntax: string)
    requires line == "message Options {"
    ensures LineOutput(StripUselessSyntax(line), cfg, syntax) == Ok("export interface " + Marker + "Service {")
    ensures Contains("export interface " + Marker + "Service {", Marker)
  {
    MessageNameStripped(line);
    var stripped := StripUselessSyntax(line);
    var words := ["message", Marker];
    assert stripped == Join(words, " ");
    TokenizeWords(words);
    InterfaceLine(stripped, cfg, syntax);
    ContainsInfix("export interface ", Marker, "Service {");
  }
}
