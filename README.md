# protots core in Dafny

protots turns the text of a Protocol Buffers `.proto` file into the text of TypeScript
interface declarations. The work is done line by line in `src/index.ts`:

- `parse` reads the options and checks them. It then detects the syntax version, replaces
  every `syntax…`/`option…` tail with a `--remove--` marker, and translates each line with
  `parseLine`.
- It then drops the lines that still carry the marker. If the text mentions streams, it adds
  a stream import line. If a `package` line was ever seen, it adds a closing brace.
- `parseLine` dispatches on the first token of a line: comment, `}`, `message`/`service`,
  `rpc`, `package`, or a field with an optional `required`/`optional`/`repeated` qualifier.
- `rpc` lines go through the regular expression of `parseRpcLine`. Field types go through the
  scalar table of `convertToTypescriptTypes`.

The model follows that structure, one module per concern:

| module | file | models |
|---|---|---|
| `Wrappers` | wrappers.dfy | `Option` and `Result` |
| `ChangeCase` | casing.dfy | the `camel`/`pascal` converters of the change-case library, as a value of two functions |
| `Text` | text.dfy | the JavaScript string operations the source relies on: `trim` (with the ECMAScript whitespace set), `split`, `join`, one-character `replace`, case-insensitive search |
| `Tokenizer` | tokenizer.dfy | `tokenize` |
| `TypeMapper` | types.dfy | `convertToTypescriptTypes` |
| `RpcPattern` | rpc_pattern.dfy | the RPC regular expression: the shapes it accepts (`RpcShape`, `WellFormed`, `Spell`), and a matcher `MatchAt` proved to find exactly those shapes, with the reading a backtracking engine settles on |
| `RpcParser` | rpc.dfy | `getRpcType`, the leftmost-match search of `exec`, and `parseRpcLine` |
| `RpcExamples` | rpc_examples.dfy | the `ListFeatures` line of the RPC parser test |
| `SyntaxFilter` | syntax.dfy | `getProtoVersion` and `stripUselessSyntax` |
| `LineTranslator` | line.dfy | `parseLine` as a function of the line, the line configuration and the syntax |
| `Document` | document.dfy | `parse`. Class `Parser` holds the two module-level variables `syntax` and `hasPackage`. Its methods `ParseLine` and `Parse` update them as the source does, and are proved equal to the pure specifications `LineOutput` and `ParseSpec` |

JavaScript's `undefined` is modelled where the source can produce it:

- `message` with no name gives `export interface undefinedService {`.
- A field line with no type token gives the type `undefined`.
- `camel(undefined)` is `camel("")`, which is what change-case does with a missing value.
- `package` with no name sets `hasPackage` and then throws. This is modelled as
  `Err(PackageNameMissing)`, which aborts `parse` as `LineFailed`.

### Behaviour of the code worth noting

- The syntax starts as `proto3` (src/index.ts:8) and stays so when a file declares none.
- The detected version keeps its case, so `syntax = "PROTO3";` yields `PROTO3`. That value
  then makes fields non-optional, because line 151 compares against `'proto3'` exactly.
- Every `message` and `service` line opens an interface named with the `Service` suffix
  (src/index.ts:160).
- Lines built from tokens lose their indentation, because `tokenize` trims the line: fields,
  interfaces, namespaces and rendered `rpc` lines. A kept comment (src/index.ts:155) and an
  `rpc` line the pattern does not match (src/index.ts:96) come back as the raw line,
  indentation included.
- Under proto3 a `repeated` field is emitted optional (`tags?: string[]`).
- A line whose text begins with `optional` starts with `option`, so `stripUselessSyntax`
  removes the whole line (`KeywordLineDropped`) before `parseLine` can see the qualifier.
- A keyword later in a line only cuts the rest of that line. `string note = 1; // options`
  is stripped to `string note = 1; // --remove--` and still becomes the field
  `note?: string` under proto3, with the comment gone (`TrailingKeywordKept`). The same holds
  for `int32 count = 1 [(my_option) = true];`. `message Options {` is stripped to
  `message --remove--`, whose interface line `export interface --remove--Service {` is
  dropped, while the message's closing `}` is kept (`MessageNameMarked`).
- `hasPackage` is module state that is never reset. Once one document has a package, every
  later document also gets a closing `}` (`HasPackageAfterParse`, `PackageCloses`).
- For the test line `rpc ListFeatures(Rectangle) returns (stream Feature) {}` the code gives
  `Stream` under `native`, `Stream<Feature>` under `generic` and `Feature` under `strip`
  (`ListFeaturesExample`). The RPC parser test calls the parser with no behaviour, which
  `getRpcType` treats as `generic` (neither `strip` nor `native`), and so gives
  `Stream<Feature>`, while the test expects plain `Feature`.
- The option name is spelled `stripEmtpyLines`, as in `PrototsOptions`.

## Model

| member | source | states |
|---|---|---|
| Text.Trim | src/index.ts:80 | the trimmed line starts and ends with a non-whitespace character, and is empty exactly when the line is all whitespace |
| Text.TrimInfix | src/index.ts:80 | the trimmed line is the infix of the line between a whitespace prefix and a whitespace suffix |
| Text.Split | src/index.ts:196 | splitting yields at least one part, and no part contains the separator |
| Text.JoinSplit | src/index.ts:196-206 | joining the parts of a split with the same separator gives back the original text |
| Text.SplitJoin | src/index.ts:196-206 | splitting a join of separator-free parts gives back the parts |
| Text.JoinSnoc | src/index.ts:204-206 | joining after pushing a part onto a non-empty list appends the separator and that part |
| Text.ReplaceFirst | src/index.ts:165 | only the first occurrence of the character is replaced; text without it is unchanged |
| Tokenizer.NonEmpty | src/index.ts:80 | every piece `filter(Boolean)` keeps is non-empty, and a string is kept exactly when it is a non-empty part |
| Tokenizer.NonEmptyOne | src/index.ts:80 | one part is kept exactly when it is non-empty |
| Tokenizer.NonEmptyCons | src/index.ts:80 | filtering a list filters its first part, then the rest |
| Tokenizer.NonEmptyAppend | src/index.ts:80 | filtering a concatenation filters each part, so order and multiplicity are kept |
| Tokenizer.Tokenize | src/index.ts:79-81 | `trim`, `split(' ')`, `filter(Boolean)`; its contract is stated by the Tokenizer lemmas below, from `TokensAreWords` to `AlignedFieldTokens` |
| Tokenizer.TokensAreWords | src/index.ts:79-81 | every token is non-empty and contains no space |
| Tokenizer.TokensCover | src/index.ts:79-81 | the tokens, concatenated, are the trimmed line with its spaces removed: no character is lost |
| Tokenizer.TokenizeBlank | src/index.ts:79-81 | a whitespace-only line has no tokens |
| Tokenizer.FirstToken | src/index.ts:79-81 | the first token is the first space-free run of the trimmed line |
| Tokenizer.FirstTokenPrefix | src/index.ts:79-81 | a space-free prefix of the trimmed line is a prefix of the first token |
| Tokenizer.TokenizeJoin | src/index.ts:79-81 | joining the tokens with single spaces gives back the trimmed line when it has no double space |
| Tokenizer.TokenizeWords | src/index.ts:79-81 | tokenizing space-separated words that have no whitespace at either end gives back the words |
| Tokenizer.SplitSpaceHead | src/index.ts:80 | a leading space splits off one empty piece |
| Tokenizer.SpacesCons | src/index.ts:80 | a run of spaces is a space followed by a shorter run |
| Tokenizer.SplitSpaces | src/index.ts:80 | leading spaces add only empty pieces, which the filter drops |
| Tokenizer.SplitGap | src/index.ts:80 | a run of one or more spaces after a word is one token boundary |
| Tokenizer.SplitSpaced | src/index.ts:80 | words separated by runs of spaces split and filter back to the words |
| Tokenizer.SpacedEnds | src/index.ts:80 | such a line starts with the first word's first character and ends with the last word's last character |
| Tokenizer.TokenizeSpaced | src/index.ts:79-81 | space-free words separated by runs of spaces, with no whitespace at either end, tokenize to the words |
| Tokenizer.AlignedFieldTokens | src/index.ts:79-81 | `string  name = 1;` with two spaces tokenizes to `string`, `name`, `=`, `1;` |
| Tokenizer.TabIsNotSeparator | src/index.ts:80 | only the space separates tokens: a tab stays inside a token |
| TypeMapper.ConvertToTypescriptType | src/index.ts:120-140 | the twelve numeric scalars map to `number`, `bool` to `boolean`, `string` and `bytes` to `string`, any other token to itself |
| TypeMapper.TableIsClosed | src/index.ts:121-137 | the table's keys are exactly the fifteen protobuf scalars |
| TypeMapper.ConvertIdempotent | src/index.ts:139 | converting a converted type changes nothing |
| TypeMapper.ConvertKeepsForeign | src/index.ts:139 | a message type name that does not start with a lower-case letter is kept as written |
| RpcPattern.MatchAt | src/index.ts:90 | the regular expression tried at one index; its contract is `MatchAtSound`, `MatchAtSpelled` and `MatchAtAny` |
| RpcPattern.MatchAtSound | src/index.ts:90 | whatever the matcher returns is a well-formed, canonical shape spelled at that index |
| RpcPattern.MatchAtSpelled | src/index.ts:90 | every well-formed canonical shape spelled at an index is what the matcher returns there |
| RpcPattern.MatchAtAny | src/index.ts:90 | wherever any well-formed shape is spelled, the matcher succeeds |
| RpcPattern.MatchSideSound | src/index.ts:90 | a matched side ends at the first `)`, and has the `stream` group exactly when the text starts with `stream` and has more before the `)` |
| RpcParser.RpcType | src/index.ts:83-87 | a non-stream or stripped type is the type itself; a native stream is `Stream`; a generic stream is `Stream<T>` |
| RpcParser.FirstSome | src/index.ts:92 | the result is the first successful position at or after the start, or none when there is none |
| RpcParser.MatchFrom | src/index.ts:92 | the match found is at the leftmost index where the matcher succeeds, and no match means the matcher fails everywhere |
| RpcParser.NoMatchNoSpelling | src/index.ts:90-92 | where the matcher fails, no well-formed shape is spelled |
| RpcParser.MatchFromLeftmost | src/index.ts:90-92 | `exec` finds a well-formed canonical shape spelled at its index, and no well-formed shape is spelled further left |
| RpcParser.MatchFromNone | src/index.ts:90-97 | `exec` finds nothing exactly when the line spells no well-formed shape anywhere |
| RpcParser.ParseRpcLineUnchanged | src/index.ts:94-97 | a line that spells no RPC signature comes back unchanged |
| RpcParser.ParseRpcLineRenders | src/index.ts:99-116 | a line whose leftmost signature is `sh` renders as `camel(method) (var: Req): Res` built from `sh` |
| RpcParser.RequestVariableSuffix | src/index.ts:109-111 | the parameter gets the `Stream` suffix exactly when the request is streamed and streams are not stripped |
| RpcParser.ParseRpcLine | src/index.ts:89-118 | `parseRpcLine`; its contract is `ParseRpcLineUnchanged` (no signature: the line itself) and `ParseRpcLineRenders` (the leftmost signature, rendered) |
| RpcExamples.ListFeaturesShapeWellFormed | tests/rpc-parser.test.ts:6 | the shape of the test line is well formed and canonical |
| RpcExamples.ListFeaturesShapeSpells | tests/rpc-parser.test.ts:6 | that shape spells the test line |
| RpcExamples.ListFeaturesSignature | src/index.ts:107-116 | the rendering of its signature under each of the three stream behaviours |
| RpcExamples.ListFeaturesRendered | src/index.ts:89-116 | a line spelling that shape at index 0 renders to those three texts |
| RpcExamples.ListFeaturesExample | tests/rpc-parser.test.ts:6-8 | the test line renders to `...: Stream`, `...: Stream<Feature>` and `...: Feature` under native, generic and strip |
| SyntaxFilter.FindVersion | src/index.ts:71 | the result is the leftmost index at or after the start where `proto[0-9]";` matches, or none when there is none |
| SyntaxFilter.ProtoVersion | src/index.ts:70-73 | `getProtoVersion`; its contract is `ProtoVersionLeftmost`, `ProtoVersionShape` and `ProtoVersionExamples` |
| SyntaxFilter.ProtoVersionLeftmost | src/index.ts:70-73 | a version is found exactly when the pattern occurs, and it is the six characters at the leftmost occurrence |
| SyntaxFilter.ProtoVersionShape | src/index.ts:71-72 | a found version is `proto` in any case followed by one digit |
| SyntaxFilter.LookaheadIsVacuous | src/index.ts:71 | the negative lookahead `(?!syntax = ")` never rejects a position where `proto` matches |
| SyntaxFilter.ProtoVersionExamples | src/index.ts:70-73 | `"proto2";` gives `proto2`, `"PROTO3";` gives `PROTO3`, and single quotes give no version |
| SyntaxFilter.KeywordAtCI | src/index.ts:76 | the keyword test is the case-insensitive match of `syntax` or `option` |
| SyntaxFilter.StripUselessSyntax | src/index.ts:75-77 | `stripUselessSyntax`; its contract is `StripWithoutKeyword`, `StripAtFirstKeyword`, `StripLines`, `StripSplit` and `StripLeadingKeyword` |
| SyntaxFilter.StripWithoutKeyword | src/index.ts:75-77 | text with no keyword is unchanged |
| SyntaxFilter.StripAtFirstKeyword | src/index.ts:76 | at the first keyword, the marker replaces the keyword and the rest of its line, and replacing continues after the line end |
| SyntaxFilter.StripKeepsLine | src/index.ts:76 | replacing never introduces a newline into a line that has none |
| SyntaxFilter.StripLines | src/index.ts:76 | because `.` stops at the line end, stripping two newline-joined pieces strips each piece |
| SyntaxFilter.StripEach | src/index.ts:76 | the stripped lines, one for each line |
| SyntaxFilter.StripSplit | src/index.ts:193-196 | splitting the stripped text gives the stripped lines of the original text |
| SyntaxFilter.WhitespaceIsNoKeyword | src/index.ts:76 | no keyword starts at a whitespace character |
| SyntaxFilter.StripFromTerminator | src/index.ts:76 | stripping from a line end yields text that is empty or starts with a line end |
| SyntaxFilter.StripInLastLine | src/index.ts:76 | when the first keyword lies on the text's last line, the result is the text before it followed by the marker |
| SyntaxFilter.TrailingKeywordStripped | src/index.ts:76 | `string note = 1; // options` is stripped to `string note = 1; // --remove--` |
| SyntaxFilter.MessageNameStripped | src/index.ts:76 | `message Options {` is stripped to `message --remove--`, its brace gone |
| SyntaxFilter.StripLeadingKeyword | src/index.ts:76 | a line whose first non-blank text is a keyword becomes its indentation, then the marker, then the line end |
| LineTranslator.TokenAt | src/index.ts:153-179 | `tokens[i]` is defined exactly below the length and is then that token |
| LineTranslator.LineOutput | src/index.ts:146-180 | `parseLine`; its contract is the lemmas below. `CommentLine`, `CloseLine`, `InterfaceLine`, `RpcLine` and `PackageLine` each state one branch's output. The properties are in `FieldMarks` with `FieldLineMarks` (when `?` and `[]` appear), `MarkedLineStaysMarked` (marked lines stay marked) and `OnlyPackageFails` (the one error) |
| LineTranslator.EmptyLine | src/index.ts:147 | an empty line becomes the marker when empty lines are stripped, and stays empty otherwise |
| LineTranslator.BlankLineIsField | src/index.ts:147-179 | a non-empty blank line is not caught by line 147, and becomes the field `camel("")[?]: undefined` |
| LineTranslator.CommentLine | src/index.ts:154-155 | a comment is kept verbatim when comments are kept, and otherwise becomes the marker |
| LineTranslator.CloseLine | src/index.ts:156-157 | a line starting with `}` becomes `}` |
| LineTranslator.InterfaceLine | src/index.ts:158-160 | `message`/`service` lines open `export interface <name>Service {`, with `undefined` as the name when none is given |
| LineTranslator.RpcLine | src/index.ts:161-162 | `rpc` lines are the output of the RPC parser |
| LineTranslator.PackageLine | src/index.ts:163-165 | a `package` line fails exactly when it has no name; otherwise it opens `export namespace Pascal(name without its first ;) {` |
| LineTranslator.OnlyPackageFails | src/index.ts:146-180 | the only line that fails is a `package` line with no name |
| LineTranslator.FieldMarks | src/index.ts:150-179 | a field line drops its qualifier, is optional when marked `optional` or under proto3 unless `required`, and is an array exactly when `repeated` |
| LineTranslator.FieldLineMarks | src/index.ts:179 | a field line starts with the camel-cased name, has `?` right after it exactly when optional, and ends with the mapped type, plus `[]` when repeated |
| LineTranslator.Proto3RepeatedIsOptional | src/index.ts:151-176 | under proto3 a repeated field is also optional |
| LineTranslator.TagsFieldTokens | src/index.ts:79-81 | the tokens of `repeated string tags = 1;` |
| LineTranslator.TagsFieldLines | src/index.ts:179 | the field texts built from those tokens, optional and not |
| LineTranslator.RepeatedFieldExample | src/index.ts:146-180 | `repeated string tags = 1;` becomes `tags?: string[]` under proto3 and `tags: string[]` under proto2 |
| LineTranslator.MarkedHead | src/index.ts:79-81 | a line whose trimmed text starts with the marker has a first token starting with the marker, which selects the field path |
| LineTranslator.ForeignTypeKept | src/index.ts:139-179 | a field whose type token carries the marker keeps the marker in its output |
| LineTranslator.MarkedLineStaysMarked | src/index.ts:146-180 | a line that starts with the marker still contains it after translation, so the filter drops it |
| LineTranslator.MarkedCommentStaysMarked | src/index.ts:154-155 | a comment containing the marker still contains it after translation |
| LineTranslator.MarkerHoldsMarker | src/index.ts:147 | helper for `MarkedCommentStaysMarked`: the marker that replaces a dropped comment contains the marker |
| LineTranslator.TrailingKeywordKept | src/index.ts:146-180 | `string note = 1; // options`, once stripped, is still the field `note?: string` under proto3 |
| LineTranslator.NoteFieldTokens | src/index.ts:79-81 | the tokens of `string note = 1; // --remove--`, the marker the last of them |
| LineTranslator.NoteFieldLine | src/index.ts:179 | the optional field text built from those tokens names `note` with type `string` |
| LineTranslator.MessageNameMarked | src/index.ts:158-160 | `message Options {`, once stripped, opens the interface `--remove--Service`, whose line holds the marker |
| Document.ResolveBehaviour | src/index.ts:183-187 | no value means `native`; a value is accepted exactly when it is `strip`, `generic` or `native`, and is then that behaviour; otherwise the error names the value |
| Document.ImportLine | src/index.ts:194 | the import is from `'stream'` exactly under `native`, and from `'ts-stream'` otherwise |
| Document.Translations | src/index.ts:196-197 | one outcome for each line, in order, each the line's translation |
| Document.Collect | src/index.ts:197 | the map succeeds exactly when every line does, and then the results are the lines' outputs in order |
| Document.CollectFirstFailure | src/index.ts:197 | a failing map fails with the error of the first failing line |
| Document.Keep | src/index.ts:198 | filtering never lengthens the list |
| Document.KeepMembers | src/index.ts:198 | a line survives the filter exactly when it is an output and does not contain the marker |
| Document.KeepAppend | src/index.ts:198 | filtering a concatenation filters each part |
| Document.Assemble | src/index.ts:200-204 | the body sits after the import line and a blank line exactly when the text mentions `stream` (any case) and streams are not stripped, and a final `}` follows when there is a package |
| Document.ParseSpec | src/index.ts:182-207 | `parse` from a given module state; its contract is the lemmas below, from `ValidationFirst` to `KeywordLineDropped`, and `Parser.Parse` is proved equal to it |
| Document.Parser.constructor | src/index.ts:8-9 | the initial state is `proto3` with no package |
| Document.Parser.ParseLine | src/index.ts:146-180 | the imperative `parseLine` returns the translation `LineOutput` of the line, leaves the syntax alone, and sets `hasPackage` exactly on a `package` line |
| Document.Parser.MapLines | src/index.ts:196-197 | mapping the lines in order returns `Collect` of their translations, and the package flag is set exactly when some line is a package line |
| Document.Parser.Parse | src/index.ts:182-207 | the result and the new module state are those of `ParseSpec` from the old state |
| Document.ValidationFirst | src/index.ts:185-187 | an invalid stream behaviour is reported before anything else, and the state is untouched |
| Document.EmptyFileRejected | src/index.ts:189 | an empty input is rejected with `No file specified`, and the state is untouched |
| Document.SyntaxAfterParse | src/index.ts:192 | a version the text declares becomes the syntax, with the shape `proto` and one digit; otherwise the previous syntax stays |
| Document.HasPackageAfterParse | src/index.ts:163-164 | the package flag is never reset, and afterwards it is set exactly when it was set before or a cleaned line of this document is a package line |
| Document.FailureIsNamelessPackage | src/index.ts:163-165 | a failing translation means some cleaned line is a `package` line with no name, and the package flag is then set |
| Document.FailingLine | src/index.ts:163-165 | a failing map of lines contains a nameless `package` line |
| Document.BodyLinesAreTranslations | src/index.ts:196-198 | every line of the body is the translation of some cleaned line and does not contain the marker |
| Document.ImportHeader | src/index.ts:194-206 | when the text mentions `stream` and streams are not stripped, the output begins with the import line and a newline |
| Document.PackageCloses | src/index.ts:204-206 | when the package flag is set after the call, whether by an earlier document or by this one, the output is `}` or ends with a newline and `}` |
| Document.BraceLast | src/index.ts:204-206 | lines whose last one is `}` join to `}` or to text ending in a newline and `}` |
| Document.MarkerLineDropped | src/index.ts:76-179 | a line whose first non-blank text is `syntax` or `option` still carries the marker after translation |
| Document.KeywordLineDropped | src/index.ts:193-198 | such a line of the file is translated to a marked line and is absent from the body |
| Document.AnyPackageStep | src/index.ts:163-164 | one more line sets the flag exactly when it is a package line |
| Document.AnyPackageGrows | src/index.ts:163-164 | a package line earlier or at the new index is still seen after one more line |
| Document.AnyPackageShrinks | src/index.ts:163-164 | a package line seen after one more line that is not a package line was seen before it |
| Document.MapStep | src/index.ts:196-197 | one turn of the map: the line's outcome extends the translated prefix or decides the failure of the whole map, and the package flag follows |
| Document.FailureIsPackage | src/index.ts:163-165 | a line that fails is a package line |
| Document.CollectStep | src/index.ts:197 | one more successful line appends its output |
| Document.CollectStops | src/index.ts:197 | the first failing line decides the failure of the whole map |
| Document.CollectErrExtends | src/index.ts:197 | a map that fails on a prefix fails the same way on the whole list |

## Left out

- Reading the input: `readFile` and `readFileStream` (src/index.ts:47-68) take a path, a
  `Buffer` or a `Readable` stream. The model takes the file's text. The falsy-input check of
  line 189 is the empty text. A non-empty path to an empty file is not distinguished from
  the empty text.
- `toFile` and `writeAsync` (src/index.ts:10, 210-212) write to disk. The model returns the
  text that `toString` returns.
- `async` and the `Promise`: a thrown error is an `Err` result.
- The `console.log` of a line the RPC pattern does not match (src/index.ts:95) is output
  only.
- The change-case library is not part of this model. `camel` and `pascal` are arbitrary
  functions (a `CaseConverter`), so nothing is assumed about them beyond what each lemma
  states in its requires.
- `types[token] || token` (src/index.ts:139) looks the token up on a plain object. The model
  does not capture a token such as `constructor` or `toString` finding an inherited property.
- The regular expressions are modelled by hand-written matchers. Case-insensitive matching
  folds ASCII letters only, which is exact for these patterns: JavaScript's non-Unicode
  folding never maps a non-ASCII character onto an ASCII one.
- src/cli.ts (argument handling and directory output) is not part of this model.
- Strings: a Dafny `string` is a sequence of Unicode scalar values, while a JavaScript string
  is a sequence of UTF-16 code units. The core has no behaviour that depends on the
  difference, except for text holding lone surrogates, which a Dafny `string` cannot hold.
- Text.Trim: its own contract states the ends of the result and when it is empty. That the
  result is the infix between a whitespace prefix and a whitespace suffix is stated by
  `Text.TrimInfix`, so that the fact is not unfolded at every tokenized line.
- Tokenizer.NonEmpty: its own contract states which strings are kept. Order and
  multiplicity are stated by `Tokenizer.NonEmptyOne`, `Tokenizer.NonEmptyCons` and
  `Tokenizer.NonEmptyAppend`.
- Document.KeywordLineDropped: covers only lines whose first non-blank text is `syntax` or
  `option`. A keyword later in a line is not dropped in general. One that starts the name
  token (`int32 option_count = 1;`) makes the field `camel("--remove--"): number`, and
  whether the filter drops that depends on what `camel` does to the marker, which the model
  leaves abstract. One at or after the third token only cuts the line's tail, so the field
  survives (`LineTranslator.TrailingKeywordKept`). One in a `message` name drops the
  interface line and leaves its `}` (`LineTranslator.MessageNameMarked`).
- Document.Keep: its own contract states only the length bound. Membership is stated
  separately by `Document.KeepMembers`, and concatenation by `Document.KeepAppend`.
