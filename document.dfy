/** The document level of src/index.ts: `parse` validates its options, updates the two
    module-level variables `syntax` and `hasPackage`, cleans the text, translates it line by
    line and assembles the result. `ParseSpec` states the whole call on values; the class
    `Parser` holds the two variables and does the same work step by step. */
module Document {
  import opened Wrappers
  import opened Text
  import opened Tokenizer
  import opened ChangeCase
  import opened RpcParser
  import opened SyntaxFilter
  import opened LineTranslator

  /** `PrototsOptions`, every member optional. The stream behaviour is the raw value handed
      in, which `parse` checks against the three enum values; the last member keeps the
      spelling the library reads. */
  datatype Options = Options(
    keepComments: Option<bool>, streamBehaviour: Option<string>, stripEmtpyLines: Option<bool>)

  /** The errors `parse` rejects its promise with. */
  datatype ParseError =
    | InvalidStreamBehaviour(value: string)
    | NoFileSpecified
    | LineFailed(cause: LineError)

  /** The two module-level variables, shared by every call of `parse`. */
  datatype State = State(syntax: string, hasPackage: bool)

  /** What one call of `parse` yields: its result and the variables afterwards. */
  datatype Outcome = Outcome(result: Result<string, ParseError>, state: State)

  /** The values of the variables when the module is loaded. */
  const Initial := State("proto3", false)

  /** The stream behaviour `parse` works with: `native` when none is given, otherwise one
      of the three enum values spelled exactly, and an error for anything else. */
  function ResolveBehaviour(value: Option<string>): (r: Result<StreamBehaviour, ParseError>)
    ensures value.None? ==> r == Ok(Native)
    ensures value.Some? ==> (r.Ok? <==> value.value in {"strip", "generic", "native"})
    ensures value == Some("strip") ==> r == Ok(Strip)
    ensures value == Some("generic") ==> r == Ok(Generic)
    ensures value == Some("native") ==> r == Ok(Native)
    ensures r.Err? ==> r == Err(InvalidStreamBehaviour(value.value))
  {
    match value
    case None => Ok(Native)
    case Some(v) =>
      if v == "strip" then Ok(Strip)
      else if v == "generic" then Ok(Generic)
      else if v == "native" then Ok(Native)
      else Err(InvalidStreamBehaviour(v))
  }

  /** The options every line is translated with; `keepComments` defaults to false and
      empty lines are stripped unless asked otherwise. */
  function ConfigOf(options: Options, behaviour: StreamBehaviour, casing: CaseConverter): LineConfig {
    LineConfig(options.keepComments.GetOr(false), behaviour, options.stripEmtpyLines.GetOr(true), casing)
  }

  /** The import line put at the head of a document that mentions streams. */
  function ImportLine(behaviour: StreamBehaviour): (r: string)
    ensures behaviour == Native <==> r == "import Stream from 'stream'"
    ensures behaviour != Native <==> r == "import Stream from 'ts-stream'"
  {
    "import Stream from '" + (if behaviour == Native then "stream" else "ts-stream") + "'"
  }

  /** Some line is one `parseLine` treats as a `package` line. */
  predicate AnyPackageLine(lines: seq<string>) {
    exists i :: 0 <= i < |lines| && IsPackageLine(lines[i])
  }

  /** `lines.map(parseLine)` before anything throws: the outcome of each line. */
  function Translations(lines: seq<string>, cfg: LineConfig, syntax: string): (r: seq<Result<string, LineError>>)
    ensures |r| == |lines| && forall i :: 0 <= i < |lines| ==> r[i] == LineOutput(lines[i], cfg, syntax)
  {
    seq(|lines|, i requires 0 <= i < |lines| => LineOutput(lines[i], cfg, syntax))
  }

  /** A map whose callback may throw: every value when no outcome is an error, otherwise the
      error of the first outcome that is one. */
  function Collect<T, E>(rs: seq<Result<T, E>>): (r: Result<seq<T>, E>)
    ensures r.Ok? <==> forall i :: 0 <= i < |rs| ==> rs[i].Ok?
    ensures r.Ok? ==> |r.value| == |rs| && forall i :: 0 <= i < |rs| ==> rs[i] == Ok(r.value[i])
    decreases |rs|
  {
    if rs == [] then Ok([])
    else
      match Collect(rs[..|rs| - 1])
      case Err(e) => Err(e)
      case Ok(m) =>
        match rs[|rs| - 1]
        case Err(e) => Err(e)
        case Ok(o) => Ok(m + [o])
  }

  /** A failing map fails with the error of the first outcome that is one. */
  lemma {:induction false} CollectFirstFailure<T, E>(rs: seq<Result<T, E>>)
    requires Collect(rs).Err?
    ensures exists k :: (0 <= k < |rs| && rs[k] == Err(Collect(rs).error)
      && forall j :: 0 <= j < k ==> rs[j].Ok?)
    decreases |rs|
  {
    var n := |rs|;
    var p := rs[..n - 1];
    if Collect(p).Err? {
      CollectFirstFailure(p);
      var k :| 0 <= k < |p| && p[k] == Err(Collect(p).error) && forall j :: 0 <= j < k ==> p[j].Ok?;
      assert forall j :: 0 <= j <= k ==> rs[j] == p[j];
    } else {
      assert forall j :: 0 <= j < n - 1 ==> rs[j] == p[j];
    }
  }

  /** `.filter(line => !/--remove--/.test(line))`: the lines that do not hold the marker,
      in their order. */
  function Keep(outs: seq<string>): (r: seq<string>)
    ensures |r| <= |outs|
  {
    if outs == [] then []
    else (if Contains(outs[0], Marker) then [] else [outs[0]]) + Keep(outs[1..])
  }

  /** The filter keeps exactly the lines without the marker. */
  lemma {:induction false} KeepMembers(outs: seq<string>)
    ensures forall x :: x in Keep(outs) <==> x in outs && !Contains(x, Marker)
  {
    if outs != [] {
      KeepMembers(outs[1..]);
      assert outs == [outs[0]] + outs[1..];
    }
  }

  /** The lines of the document: the import line and an empty line when the cleaned text
      mentions `stream` in any case and streams are not stripped, then the kept lines, then
      a closing `}` when a package was ever seen. */
  function Assemble(clean: string, behaviour: StreamBehaviour, body: seq<string>, hasPackage: bool): (r: seq<string>)
    ensures var h := if ContainsCI(clean, "stream") && behaviour != Strip then 2 else 0;
      |r| == h + |body| + (if hasPackage then 1 else 0)
      && r[h..h + |body|] == body
      && (h == 2 ==> r[0] == ImportLine(behaviour) && r[1] == [])
      && (hasPackage ==> r[|r| - 1] == "}")
  {
    (if ContainsCI(clean, "stream") && behaviour != Strip then [ImportLine(behaviour), ""] else [])
    + body + (if hasPackage then ["}"] else [])
  }

  /** `parse` on a file given as its text, starting from the variables `st`. */
  function ParseSpec(file: string, options: Options, casing: CaseConverter, st: State): Outcome {
    match ResolveBehaviour(options.streamBehaviour)
    case Err(e) => Outcome(Err(e), st)
    case Ok(b) =>
      if file == [] then Outcome(Err(NoFileSpecified), st)
      else
        var syn := ProtoVersion(file).GetOr(st.syntax);
        var clean := StripUselessSyntax(file);
        var lines := Split(clean, '\n');
        var after := State(syn, st.hasPackage || AnyPackageLine(lines));
        match Collect(Translations(lines, ConfigOf(options, b, casing), syn))
        case Err(e) => Outcome(Err(LineFailed(e)), after)
        case Ok(m) => Outcome(Ok(Join(Assemble(clean, b, Keep(m), after.hasPackage), "\n")), after)
  }

  // ------------------------------------------------------------------ the module state

  /** The module-level variables `syntax` and `hasPackage` with the two functions that read
      and write them. */
  class Parser {
    var syntax: string
    var hasPackage: bool

    function Snapshot(): State
      reads this
    {
      State(syntax, hasPackage)
    }

    constructor ()
      ensures Snapshot() == Initial
    {
      syntax := "proto3";
      hasPackage := false;
    }

    /** `parseLine`: translates one line under the current `syntax`, and records a
        `package` line, even one whose translation throws. */
    method ParseLine(line: string, cfg: LineConfig) returns (r: Result<string, LineError>)
      modifies this
      ensures r == LineOutput(line, cfg, syntax)
      ensures syntax == old(syntax)
      ensures hasPackage == (old(hasPackage) || IsPackageLine(line))
    {
      if line == [] {
        return Ok(if cfg.stripEmptyLines then Marker else []);
      }
      var tokens := Tokenize(line);
      var isRepeated := false;
      var isOptional := syntax == "proto3";
      var head := TokenAt(tokens, 0);
      if head == Some("//") {
        return Ok(if cfg.keepComments then line else Marker);
      } else if head == Some("}") {
        return Ok("}");
      } else if head == Some("message") || head == Some("service") {
        return Ok("export interface " + Interpolate(TokenAt(tokens, 1)) + "Service {");
      } else if head == Some("rpc") {
        return Ok(ParseRpcLine(line, cfg.behaviour, cfg.casing));
      } else if head == Some("package") {
        hasPackage := true;
        if |tokens| < 2 {
          return Err(PackageNameMissing);
        }
        return Ok("export namespace " + cfg.casing.pascal(ReplaceFirst(tokens[1], ';', "")) + " {");
      } else if head == Some("required") {
        isOptional := false;
        tokens := tokens[1..];
      } else if head == Some("optional") {
        isOptional := true;
        tokens := tokens[1..];
      } else if head == Some("repeated") {
        isRepeated := true;
        tokens := tokens[1..];
      }
      r := Ok(FieldLine(tokens, isOptional, isRepeated, cfg.casing));
    }

    /** `parse` on a file given as its text. */
    method Parse(file: string, options: Options, casing: CaseConverter) returns (r: Result<string, ParseError>)
      modifies this
      ensures Outcome(r, Snapshot()) == ParseSpec(file, options, casing, old(Snapshot()))
    {
      var behaviour := ResolveBehaviour(options.streamBehaviour);
      if behaviour.Err? {
        return Err(behaviour.error);
      }
      var b := behaviour.value;
      if file == [] {
        return Err(NoFileSpecified);
      }
      var version := ProtoVersion(file);
      if version.Some? {
        syntax := version.value;
      }
      var clean := StripUselessSyntax(file);
      var streamImportLine := ImportLine(b);
      var cfg := ConfigOf(options, b, casing);
      var lines := Split(clean, '\n');
      var mapped := MapLines(lines, cfg);
      if mapped.Err? {
        return Err(LineFailed(mapped.error));
      }
      var result := if ContainsCI(clean, "stream") && b != Strip then [streamImportLine, ""] + Keep(mapped.value) else Keep(mapped.value);
      if hasPackage {
        result := result + ["}"];
      }
      assert result == Assemble(clean, b, Keep(mapped.value), hasPackage);
      r := Ok(Join(result, "\n"));
    }

    /** `lines.map(getLineParser(...))`: each line through `parseLine` in turn, stopping at
        the first one that throws. */
    method MapLines(lines: seq<string>, cfg: LineConfig) returns (r: Result<seq<string>, LineError>)
      modifies this
      ensures r == Collect(Translations(lines, cfg, syntax))
      ensures syntax == old(syntax)
      ensures hasPackage == (old(hasPackage) || AnyPackageLine(lines))
    {
      ghost var outcomes := Translations(lines, cfg, syntax);
      var mapped: seq<string> := [];
      var i := 0;
      while i < |lines|
        invariant i <= |lines|
        invariant syntax == old(syntax)
        invariant Collect(outcomes[..i]) == Ok(mapped)
        invariant hasPackage == (old(hasPackage) || AnyPackageLine(lines[..i]))
      {
        var out := ParseLine(lines[i], cfg);
        MapStep(lines, i, cfg, syntax, mapped, out);
        if out.Err? {
          return Err(out.error);
        }
        mapped := mapped + [out.value];
        i := i + 1;
      }
      assert lines[..i] == lines && outcomes[..i] == outcomes;
      r := Ok(mapped);
    }
  }

  // ------------------------------------------------------------------ properties of parse

  /** The stream behaviour is checked before anything else: a bad one is rejected whatever
      the file, and the variables are left alone. */
  lemma ValidationFirst(file: string, options: Options, casing: CaseConverter, st: State)
    requires ResolveBehaviour(options.streamBehaviour).Err?
    ensures ParseSpec(file, options, casing, st) == Outcome(Err(InvalidStreamBehaviour(options.streamBehaviour.value)), st)
  {
  }

  /** An empty file with valid options is rejected and leaves the variables alone. */
  lemma EmptyFileRejected(options: Options, casing: CaseConverter, st: State)
    requires ResolveBehaviour(options.streamBehaviour).Ok?
    ensures ParseSpec([], options, casing, st) == Outcome(Err(NoFileSpecified), st)
  {
  }

  /** Once the options and the file are accepted, `syntax` becomes the version the file
      declares, as matched, and keeps its old value when the file declares none, so a
      declaration in one document governs later documents without one. */
  lemma SyntaxAfterParse(file: string, options: Options, casing: CaseConverter, st: State)
    requires ResolveBehaviour(options.streamBehaviour).Ok? && file != []
    ensures ProtoVersion(file).Some? ==> ParseSpec(file, options, casing, st).state.syntax == ProtoVersion(file).value
    ensures ProtoVersion(file).None? ==> ParseSpec(file, options, casing, st).state.syntax == st.syntax
    ensures ProtoVersion(file).Some? ==> var v := ParseSpec(file, options, casing, st).state.syntax;
      |v| == 6 && EqualsCI(v[..5], "proto") && '0' <= v[5] <= '9'
  {
    if ProtoVersion(file).Some? {
      ProtoVersionShape(file);
    }
  }

  /** `hasPackage` is set exactly when it was set before or the accepted file has a
      `package` line, and nothing ever clears it. */
  lemma HasPackageAfterParse(file: string, options: Options, casing: CaseConverter, st: State)
    ensures st.hasPackage ==> ParseSpec(file, options, casing, st).state.hasPackage
    ensures ParseSpec(file, options, casing, st).state.hasPackage <==>
      st.hasPackage
      || (ResolveBehaviour(options.streamBehaviour).Ok? && file != []
          && AnyPackageLine(Split(StripUselessSyntax(file), '\n')))
  {
  }

  /** A translation fails only on a `package` line with no name, and such a line has already
      set `hasPackage`. */
  lemma FailureIsNamelessPackage(file: string, options: Options, casing: CaseConverter, st: State)
    requires ParseSpec(file, options, casing, st).result.Err?
    requires ParseSpec(file, options, casing, st).result.error.LineFailed?
    ensures ParseSpec(file, options, casing, st).state.hasPackage
    ensures NamelessPackageIn(Split(StripUselessSyntax(file), '\n'))
  {
    var b := ResolveBehaviour(options.streamBehaviour).value;
    var syn := ProtoVersion(file).GetOr(st.syntax);
    var lines := Split(StripUselessSyntax(file), '\n');
    FailingLine(lines, ConfigOf(options, b, casing), syn);
  }

  /** Some line is a `package` line with no name. */
  predicate NamelessPackageIn(lines: seq<string>) {
    exists k :: 0 <= k < |lines| && IsPackageLine(lines[k]) && |Tokenize(lines[k])| < 2
  }

  lemma FailingLine(lines: seq<string>, cfg: LineConfig, syntax: string)
    requires Collect(Translations(lines, cfg, syntax)).Err?
    ensures NamelessPackageIn(lines) && AnyPackageLine(lines)
  {
    var rs := Translations(lines, cfg, syntax);
    CollectFirstFailure(rs);
    var k :| 0 <= k < |rs| && rs[k].Err?;
    OnlyPackageFails(lines[k], cfg, syntax);
  }

  /** Every line between the header and the closing brace is the translation of a line of
      the cleaned text that does not hold the marker. */
  lemma BodyLinesAreTranslations(file: string, options: Options, casing: CaseConverter, st: State)
    requires ResolveBehaviour(options.streamBehaviour).Ok? && file != []
    requires ParseSpec(file, options, casing, st).result.Ok?
    ensures var b := ResolveBehaviour(options.streamBehaviour).value;
      var lines := Split(StripUselessSyntax(file), '\n');
      var rs := Translations(lines, ConfigOf(options, b, casing), ProtoVersion(file).GetOr(st.syntax));
      Collect(rs).Ok?
      && (forall x :: x in Keep(Collect(rs).value) ==>
          !Contains(x, Marker) && exists i :: 0 <= i < |lines| && rs[i] == Ok(x))
  {
    var b := ResolveBehaviour(options.streamBehaviour).value;
    var lines := Split(StripUselessSyntax(file), '\n');
    var rs := Translations(lines, ConfigOf(options, b, casing), ProtoVersion(file).GetOr(st.syntax));
    var m := Collect(rs).value;
    KeepMembers(m);
    forall x | x in Keep(m)
      ensures exists i :: 0 <= i < |lines| && rs[i] == Ok(x)
    {
      var i :| 0 <= i < |m| && m[i] == x;
      assert rs[i] == Ok(x);
    }
  }

  /** A document that mentions `stream` in any case outside the removed lines, parsed with
      streams kept, starts with the import line. */
  lemma ImportHeader(file: string, options: Options, casing: CaseConverter, st: State)
    requires ResolveBehaviour(options.streamBehaviour).Ok? && file != []
    requires ParseSpec(file, options, casing, st).result.Ok?
    requires ContainsCI(StripUselessSyntax(file), "stream")
    requires ResolveBehaviour(options.streamBehaviour).value != Strip
    ensures var text := ParseSpec(file, options, casing, st).result.value;
      var header := ImportLine(ResolveBehaviour(options.streamBehaviour).value) + "\n";
      |header| <= |text| && text[..|header|] == header
  {
    var b := ResolveBehaviour(options.streamBehaviour).value;
    var clean := StripUselessSyntax(file);
    var syn := ProtoVersion(file).GetOr(st.syntax);
    var lines := Split(clean, '\n');
    var after := State(syn, st.hasPackage || AnyPackageLine(lines));
    var m := Collect(Translations(lines, ConfigOf(options, b, casing), syn)).value;
    var parts := Assemble(clean, b, Keep(m), after.hasPackage);
    assert Join(parts, "\n") == ImportLine(b) + "\n" + Join(parts[1..], "\n");
  }

  /** Once `hasPackage` is set, every document that parses ends with a closing brace line,
      whether or not it has a `package` line of its own. */
  lemma PackageCloses(file: string, options: Options, casing: CaseConverter, st: State)
    requires ParseSpec(file, options, casing, st).result.Ok?
    requires ParseSpec(file, options, casing, st).state.hasPackage
    ensures var text := ParseSpec(file, options, casing, st).result.value;
      text == "}" || (|text| >= 2 && text[|text| - 2..] == "\n}")
  {
    var b := ResolveBehaviour(options.streamBehaviour).value;
    var clean := StripUselessSyntax(file);
    var syn := ProtoVersion(file).GetOr(st.syntax);
    var lines := Split(clean, '\n');
    var m := Collect(Translations(lines, ConfigOf(options, b, casing), syn)).value;
    BraceLast(Assemble(clean, b, Keep(m), true));
  }

  /** Lines whose last one is `}` join to `}` or to text ending in a newline and `}`. */
  lemma BraceLast(parts: seq<string>)
    requires parts != [] && parts[|parts| - 1] == "}"
    ensures var text := Join(parts, "\n");
      text == "}" || (|text| >= 2 && text[|text| - 2..] == "\n}")
  {
    var front := parts[..|parts| - 1];
    assert parts == front + ["}"];
    if front != [] {
      JoinSnoc(front, "}", "\n");
    }
  }

  /** A line of the file that starts, after blanks, with `syntax` or `option` in any case is
      cleaned into a line that still holds the marker when translated, so it leaves nothing
      in the document. */
  lemma KeywordLineDropped(file: string, options: Options, casing: CaseConverter, st: State, k: nat, w: string, x: string)
    requires ResolveBehaviour(options.streamBehaviour).Ok? && file != []
    requires ParseSpec(file, options, casing, st).result.Ok?
    requires k < |Split(file, '\n')| && Split(file, '\n')[k] == w + x
    requires AllWhitespace(w) && KeywordAt(x, 0)
    ensures var b := ResolveBehaviour(options.streamBehaviour).value;
      var lines := Split(StripUselessSyntax(file), '\n');
      var m := Collect(Translations(lines, ConfigOf(options, b, casing), ProtoVersion(file).GetOr(st.syntax))).value;
      k < |m| && Contains(m[k], Marker) && m[k] !in Keep(m)
  {
    var b := ResolveBehaviour(options.streamBehaviour).value;
    var cfg := ConfigOf(options, b, casing);
    var syn := ProtoVersion(file).GetOr(st.syntax);
    StripSplit(file);
    var lines := Split(StripUselessSyntax(file), '\n');
    assert lines[k] == StripUselessSyntax(w + x);
    MarkerLineDropped(w, x, cfg, syn);
    KeepMembers(Collect(Translations(lines, cfg, syn)).value);
  }

  /** The single-line form of `KeywordLineDropped`. */
  lemma MarkerLineDropped(w: string, x: string, cfg: LineConfig, syntax: string)
    requires AllWhitespace(w) && KeywordAt(x, 0)
    ensures LineOutput(StripUselessSyntax(w + x), cfg, syntax).Ok?
    ensures Contains(LineOutput(StripUselessSyntax(w + x), cfg, syntax).value, Marker)
  {
    StripLeadingKeyword(w, x);
    var rest :| StripUselessSyntax(w + x) == w + Marker + rest && (rest == [] || IsLineTerminator(rest[0]));
    var line := w + Marker + rest;
    assert line == w + (Marker + rest);
    TrimStartSkips(w, Marker + rest);
    TrimEndKeeps(Marker, rest);
    MarkedLineStaysMarked(line, cfg, syntax);
  }

  /** The filter keeps the order of what it keeps. */
  lemma {:induction false} KeepAppend(a: seq<string>, b: seq<string>)
    ensures Keep(a + b) == Keep(a) + Keep(b)
  {
    if a != [] {
      var head := if Contains(a[0], Marker) then [] else [a[0]];
      KeepAppend(a[1..], b);
      assert (a + b)[0] == a[0] && (a + b)[1..] == a[1..] + b;
      assert Keep(a + b) == head + Keep(a[1..] + b);
      assert Keep(a) == head + Keep(a[1..]);
    } else {
      assert a + b == b;
    }
  }

  // ------------------------------------------------------------------ helpers of the loop

  /** One turn of the loop of `Parser.MapLines`: the outcome of line `i` either extends the
      mapped prefix or decides the failure of the whole map, and the package flag follows. */
  lemma MapStep(lines: seq<string>, i: nat, cfg: LineConfig, syntax: string, mapped: seq<string>,
                out: Result<string, LineError>)
    requires i < |lines| && out == LineOutput(lines[i], cfg, syntax)
    requires Collect(Translations(lines, cfg, syntax)[..i]) == Ok(mapped)
    ensures AnyPackageLine(lines[..i + 1]) == (AnyPackageLine(lines[..i]) || IsPackageLine(lines[i]))
    ensures out.Ok? ==> Collect(Translations(lines, cfg, syntax)[..i + 1]) == Ok(mapped + [out.value])
    ensures out.Err? ==>
      (Collect(Translations(lines, cfg, syntax)) == Err(out.error)
       && AnyPackageLine(lines) && IsPackageLine(lines[i]))
  {
    var outcomes := Translations(lines, cfg, syntax);
    assert out == outcomes[i];
    AnyPackageStep(lines, i);
    if out.Err? {
      FailureIsPackage(lines, i, cfg, syntax);
      CollectStops(outcomes, i);
    } else {
      CollectStep(outcomes, i);
    }
  }

  lemma AnyPackageStep(lines: seq<string>, i: nat)
    requires i < |lines|
    ensures AnyPackageLine(lines[..i + 1]) == (AnyPackageLine(lines[..i]) || IsPackageLine(lines[i]))
  {
    AnyPackageGrows(lines, i);
    if AnyPackageLine(lines[..i + 1]) && !IsPackageLine(lines[i]) {
      AnyPackageShrinks(lines, i);
    }
  }

  lemma AnyPackageGrows(lines: seq<string>, i: nat)
    requires i < |lines|
    ensures AnyPackageLine(lines[..i]) ==> AnyPackageLine(lines[..i + 1])
    ensures IsPackageLine(lines[i]) ==> AnyPackageLine(lines[..i + 1])
  {
    if AnyPackageLine(lines[..i]) {
      var k :| 0 <= k < i && IsPackageLine(lines[..i][k]);
      assert lines[..i + 1][k] == lines[..i][k];
    }
    assert lines[..i + 1][i] == lines[i];
  }

  lemma AnyPackageShrinks(lines: seq<string>, i: nat)
    requires i < |lines| && AnyPackageLine(lines[..i + 1]) && !IsPackageLine(lines[i])
    ensures AnyPackageLine(lines[..i])
  {
    var k :| 0 <= k < i + 1 && IsPackageLine(lines[..i + 1][k]);
    assert k != i;
    assert lines[..i][k] == lines[..i + 1][k];
  }

  /** A line that throws is a `package` line. */
  lemma FailureIsPackage(lines: seq<string>, i: nat, cfg: LineConfig, syntax: string)
    requires i < |lines| && LineOutput(lines[i], cfg, syntax).Err?
    ensures AnyPackageLine(lines) && IsPackageLine(lines[i])
  {
    OnlyPackageFails(lines[i], cfg, syntax);
  }

  lemma CollectStep<T, E>(rs: seq<Result<T, E>>, i: nat)
    requires i < |rs| && Collect(rs[..i]).Ok? && rs[i].Ok?
    ensures Collect(rs[..i + 1]) == Ok(Collect(rs[..i]).value + [rs[i].value])
  {
    assert rs[..i + 1][..i] == rs[..i];
  }

  /** Once an outcome is an error, the map of the whole sequence fails with it. */
  lemma CollectStops<T, E>(rs: seq<Result<T, E>>, i: nat)
    requires i < |rs| && Collect(rs[..i]).Ok? && rs[i].Err?
    ensures Collect(rs) == Err(rs[i].error)
  {
    assert rs[..i + 1][..i] == rs[..i];
    CollectErrExtends(rs, i + 1);
  }

  lemma {:induction false} CollectErrExtends<T, E>(rs: seq<Result<T, E>>, n: nat)
    requires n <= |rs| && Collect(rs[..n]).Err?
    ensures Collect(rs) == Collect(rs[..n])
    decreases |rs| - n
  {
    if n == |rs| {
      assert rs[..n] == rs;
    } else {
      assert rs[..n + 1][..n] == rs[..n];
      CollectErrExtends(rs, n + 1);
    }
  }
}
