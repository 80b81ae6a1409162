/** The rpc pattern of src/index.ts line 90, `rpc [^(]+\((stream)? ?[^)]+\) ?returns ?\((stream)? ?[^)]+\) ?{}`
    with the `i` flag, as a language of shapes and a hand-written matcher that picks the same match
    as the backtracking regular-expression engine. */
module RpcPattern {
  import opened Wrappers
  import opened Text

  // ------------------------------------------------------------------ the language of the pattern

  /** One side of a signature as written between parentheses: the optional `stream` keyword
      (in the case it was written), whether a space followed, and the type name. */
  datatype Side = Side(stream: Option<string>, space: bool, typeName: string)

  /** The text between the request's `)` and the response's `(`: ` ?returns ?`. */
  datatype Returns = Returns(spaceBefore: bool, keyword: string, spaceAfter: bool)

  /** A complete match of the pattern, piece by piece, as written in the line. */
  datatype RpcShape = RpcShape(
    rpcKeyword: string, methodName: string, request: Side, returnsPart: Returns,
    response: Side, spaceBeforeBody: bool)

  function Space(present: bool): string {
    if present then " " else ""
  }

  function StreamText(s: Side): string {
    if s.stream.Some? then s.stream.value else ""
  }

  function SpellSide(s: Side): string {
    StreamText(s) + Space(s.space) + s.typeName
  }

  function SpellReturns(x: Returns): string {
    Space(x.spaceBefore) + x.keyword + Space(x.spaceAfter)
  }

  /** The keyword, the method name and the request's `(`. */
  function SpellHead(sh: RpcShape): string {
    sh.rpcKeyword + sh.methodName + "("
  }

  /** The spelling from the space before the body on. */
  function SpellBody(sh: RpcShape): string {
    Space(sh.spaceBeforeBody) + "{}"
  }

  /** The spelling from the response side on. */
  function SpellFromResponse(sh: RpcShape): string {
    SpellSide(sh.response) + ")" + SpellBody(sh)
  }

  /** The spelling from the space before `returns` on. */
  function SpellFromReturns(sh: RpcShape): string {
    SpellReturns(sh.returnsPart) + "(" + SpellFromResponse(sh)
  }

  /** The spelling from the request side on. */
  function SpellFromRequest(sh: RpcShape): string {
    SpellSide(sh.request) + ")" + SpellFromReturns(sh)
  }

  /** The text a shape stands for. */
  function Spell(sh: RpcShape): string {
    SpellHead(sh) + SpellFromRequest(sh)
  }

  /** `(stream)? ?[^)]+` */
  predicate WellFormedSide(s: Side) {
    (s.stream.Some? ==> EqualsCI(s.stream.value, "stream"))
    && s.typeName != [] && ')' !in s.typeName
  }

  /** The shapes the case-insensitive pattern
      `rpc [^(]+\((stream)? ?[^)]+\) ?returns ?\((stream)? ?[^)]+\) ?{}` accepts:
      the strings it matches are exactly the spellings of these shapes. */
  predicate WellFormed(sh: RpcShape) {
    EqualsCI(sh.rpcKeyword, "rpc ") && sh.methodName != [] && '(' !in sh.methodName
    && WellFormedSide(sh.request) && EqualsCI(sh.returnsPart.keyword, "returns")
    && WellFormedSide(sh.response)
  }

  /** The reading a backtracking matcher settles on when one text spells several sides: the
      greedy `(stream)?` and ` ?` are tried present before absent. So a side with no keyword
      cannot have a type that itself starts with `stream` and goes on, and a side with no
      space cannot have a type that starts with a space and goes on. */
  predicate CanonicalSide(s: Side) {
    (s.stream.None? && !s.space ==> !(|s.typeName| > 6 && EqualsCI(s.typeName[..6], "stream")))
    && (!s.space ==> !(|s.typeName| > 1 && s.typeName[0] == ' '))
  }

  predicate Canonical(sh: RpcShape) {
    CanonicalSide(sh.request) && CanonicalSide(sh.response)
  }

  /** The line holds the spelling of `sh` at index `p`. */
  predicate SpelledAt(line: string, p: nat, sh: RpcShape) {
    ContainsAt(line, p, Spell(sh))
  }

  // ------------------------------------------------------------------ the matcher

  function SkipSpace(line: string, i: nat): (k: nat)
    requires i <= |line|
    ensures k <= |line|
  {
    if i < |line| && line[i] == ' ' then i + 1 else i
  }

  /** What each stage of the matcher reads, with the index where the next stage begins or, for
      a side, the index of its `)`. */
  datatype HeadResult = NoHead | HeadAt(next: nat)
  datatype SideResult = NoSide | SideAt(side: Side, close: nat)
  datatype ReturnsResult = NoReturns | ReturnsAt(returnsPart: Returns, next: nat)
  datatype BodyResult = NoBody | BodyAt(space: bool)

  /** Matches `rpc [^(]+\(` at `p`; yields the index just after the `(`. */
  function MatchHead(line: string, p: nat): (a: HeadResult)
    requires p <= |line|
    ensures a.HeadAt? ==> p + 6 <= a.next <= |line|
  {
    if !StartsWithCIAt(line, p, "rpc ") then NoHead
    else match FirstIndexFrom(line, p + 4, '(')
    case None => NoHead
    case Some(j) => if j == p + 4 then NoHead else HeadAt(j + 1)
  }

  /** After the keyword, if any, at `b`: the optional space and the type name, up to `r`. */
  function ReadTail(line: string, stream: Option<string>, b: nat, r: nat): Side
    requires b < r <= |line|
  {
    if line[b] == ' ' && b + 1 < r then Side(stream, true, line[b + 1..r])
    else Side(stream, false, line[b..r])
  }

  /** The side written from `a` up to its `)` at `r`. The greedy `(stream)?` takes the keyword
      whenever something is left for `[^)]+` after it, and so does the ` ?` after it. */
  function ReadSide(line: string, a: nat, r: nat): Side
    requires a < r <= |line|
  {
    if StartsWithCIAt(line, a, "stream") && a + 6 < r then ReadTail(line, Some(line[a..a + 6]), a + 6, r)
    else ReadTail(line, None, a, r)
  }

  /** Matches one side starting just after its `(`: `(stream)? ?[^)]+`, then the `)`. */
  function MatchSide(line: string, a: nat): (m: SideResult)
    requires a <= |line|
    ensures m.SideAt? ==> a < m.close < |line|
  {
    match FirstIndexFrom(line, a, ')')
    case None => NoSide
    case Some(r) => if a < r then SideAt(ReadSide(line, a, r), r) else NoSide
  }

  /** Matches ` ?returns ?\(` at `i`; yields what was written and the index just after `(`. */
  function MatchReturns(line: string, i: nat): (m: ReturnsResult)
    requires i <= |line|
    ensures m.ReturnsAt? ==> m.next <= |line|
  {
    var b := SkipSpace(line, i);
    if !StartsWithCIAt(line, b, "returns") then NoReturns
    else
      var c := SkipSpace(line, b + 7);
      if c < |line| && line[c] == '(' then ReturnsAt(Returns(b == i + 1, line[b..b + 7], c == b + 8), c + 1)
      else NoReturns
  }

  /** Matches ` ?{}` at `i`; yields whether the space was written. */
  function MatchBody(line: string, i: nat): BodyResult
    requires i <= |line|
  {
    var e := SkipSpace(line, i);
    if StartsWithCIAt(line, e, "{}") then BodyAt(e == i + 1) else NoBody
  }

  /** Matches the pattern starting exactly at index `p`, one stage after another: each of
      `AfterHead` .. `AfterResponse` reads the rest of the pattern once the stages before it
      have succeeded. */
  function MatchAt(line: string, p: nat): Option<RpcShape>
    requires p <= |line|
  {
    match MatchHead(line, p)
    case NoHead => None
    case HeadAt(a) => AfterHead(line, p, a)
  }

  function AfterHead(line: string, p: nat, a: nat): Option<RpcShape>
    requires p + 6 <= a <= |line|
  {
    match MatchSide(line, a)
    case NoSide => None
    case SideAt(request, r) => AfterRequest(line, p, a, request, r)
  }

  function AfterRequest(line: string, p: nat, a: nat, request: Side, r: nat): Option<RpcShape>
    requires p + 6 <= a <= r < |line|
  {
    match MatchReturns(line, r + 1)
    case NoReturns => None
    case ReturnsAt(x, a2) => AfterReturns(line, p, a, request, x, a2)
  }

  function AfterReturns(line: string, p: nat, a: nat, request: Side, x: Returns, a2: nat): Option<RpcShape>
    requires p + 6 <= a <= |line| && a2 <= |line|
  {
    match MatchSide(line, a2)
    case NoSide => None
    case SideAt(response, r2) => AfterResponse(line, p, a, request, x, response, r2)
  }

  function AfterResponse(line: string, p: nat, a: nat, request: Side, x: Returns, response: Side, r2: nat): Option<RpcShape>
    requires p + 6 <= a <= |line| && r2 < |line|
  {
    match MatchBody(line, r2 + 1)
    case NoBody => None
    case BodyAt(space) => Some(RpcShape(line[p..p + 4], line[p + 4..a - 1], request, x, response, space))
  }
  // ------------------------------------------------------------------ the matcher decides the language

  lemma ContainsOne(line: string, i: nat, c: char)
    requires i < |line| && line[i] == c
    ensures ContainsAt(line, i, [c])
  {
    assert [c][1..] == [];
  }

  lemma ContainsSpace(line: string, i: nat, present: bool)
    requires i <= |line| && (present ==> i < |line| && line[i] == ' ')
    ensures ContainsAt(line, i, Space(present))
  {
    if present { ContainsOne(line, i, ' '); }
  }

  lemma ContainsSlice(line: string, i: nat, j: nat)
    requires i <= j <= |line|
    ensures ContainsAt(line, i, line[i..j])
  {
    ContainsAtSlice(line, i, line[i..j]);
  }

  lemma CharsNotIn(s: string, i: nat, j: nat, c: char)
    requires i <= j <= |s|
    requires forall k :: i <= k < j ==> s[k] != c
    ensures c !in s[i..j]
  {
  }

  // The head: `rpc [^(]+\(`.

  /** What `MatchHead` finds is the keyword, a name free of `(`, and the `(`. */
  lemma HeadText(line: string, p: nat, a: nat)
    requires p <= |line| && MatchHead(line, p) == HeadAt(a)
    ensures EqualsCI(line[p..p + 4], "rpc ") && line[p + 4..a - 1] != [] && '(' !in line[p + 4..a - 1]
    ensures ContainsAt(line, p, line[p..p + 4] + line[p + 4..a - 1] + "(")
  {
    var j := a - 1;
    CharsNotIn(line, p + 4, j, '(');
    ContainsSlice(line, p, p + 4);
    ContainsSlice(line, p + 4, j);
    ContainsOne(line, j, '(');
    ContainsAtConcat(line, p, line[p..p + 4] + line[p + 4..j], "(");
    ContainsAtConcat(line, p, line[p..p + 4], line[p + 4..j]);
  }

  /** A keyword, a name free of `(` and a `(` are read back as that head. */
  lemma MatchHeadSpelled(line: string, p: nat, sh: RpcShape)
    requires EqualsCI(sh.rpcKeyword, "rpc ") && sh.methodName != [] && '(' !in sh.methodName
    requires ContainsAt(line, p, SpellHead(sh))
    ensures p + |SpellHead(sh)| <= |line| && MatchHead(line, p) == HeadAt(p + |SpellHead(sh)|)
    ensures line[p..p + 4] == sh.rpcKeyword && line[p + 4..p + |SpellHead(sh)| - 1] == sh.methodName
  {
    var keyword, name := sh.rpcKeyword, sh.methodName;
    var j := p + 4 + |name|;
    ContainsAtConcat(line, p, keyword + name, "(");
    ContainsAtConcat(line, p, keyword, name);
    ContainsAtSlice(line, p, keyword);
    ContainsAtSlice(line, p + 4, name);
    ContainsAtSlice(line, j, "(");
    assert line[j] == '(' by { assert line[j..j + 1] == "("; }
    forall m | p + 4 <= m < j ensures line[m] != '(' {
      assert line[m] == name[m - (p + 4)];
    }
    FirstIndexIs(line, p + 4, '(', j);
  }

  // A side: `(stream)? ?[^)]+\)`.

  lemma StreamKeywordChars(x: string)
    requires EqualsCI(x, "stream")
    ensures ')' !in x && x[0] != ' '
  {
    forall k | 0 <= k < |x| ensures x[k] != ')' {
      assert LowerAscii(x[k]) == LowerAscii("stream"[k]);
    }
    assert LowerAscii(x[0]) == 's';
  }

  /** A side's pieces, each where the one before it ends, then a `)`, spell the side. */
  lemma SidePieces(line: string, a: nat, s: Side)
    requires ContainsAt(line, a, StreamText(s))
    requires ContainsAt(line, a + |StreamText(s)|, Space(s.space))
    requires ContainsAt(line, a + |StreamText(s)| + |Space(s.space)|, s.typeName)
    requires ContainsAt(line, a + |SpellSide(s)|, ")")
    ensures ContainsAt(line, a, SpellSide(s) + ")")
  {
    ContainsAtConcat(line, a, StreamText(s), Space(s.space));
    ContainsAtConcat(line, a, StreamText(s) + Space(s.space), s.typeName);
    ContainsAtConcat(line, a, SpellSide(s), ")");
  }

  lemma ReadTailText(line: string, stream: Option<string>, b: nat, r: nat)
    requires b < r <= |line|
    ensures var s := ReadTail(line, stream, b, r);
      s.stream == stream && b + |Space(s.space)| + |s.typeName| == r
      && s.typeName != [] && s.typeName == line[r - |s.typeName|..r]
      && ContainsAt(line, b, Space(s.space)) && ContainsAt(line, b + |Space(s.space)|, s.typeName)
      && (!s.space ==> !(|s.typeName| > 1 && s.typeName[0] == ' '))
  {
    var s := ReadTail(line, stream, b, r);
    ContainsSpace(line, b, s.space);
    ContainsSlice(line, b + |Space(s.space)|, r);
  }

  lemma ReadSideText(line: string, a: nat, r: nat)
    requires a < r <= |line|
    ensures var s := ReadSide(line, a, r);
      a + |SpellSide(s)| == r && s.typeName == line[r - |s.typeName|..r]
      && ContainsAt(line, a, StreamText(s)) && ContainsAt(line, a + |StreamText(s)|, Space(s.space))
      && ContainsAt(line, a + |StreamText(s)| + |Space(s.space)|, s.typeName)
  {
    if StartsWithCIAt(line, a, "stream") && a + 6 < r {
      StreamTailText(line, a, r);
    } else {
      ReadTailText(line, None, a, r);
    }
  }

  lemma StreamTailText(line: string, a: nat, r: nat)
    requires a + 6 < r <= |line|
    ensures var s := ReadTail(line, Some(line[a..a + 6]), a + 6, r);
      a + |SpellSide(s)| == r && s.typeName == line[r - |s.typeName|..r]
      && ContainsAt(line, a, StreamText(s)) && ContainsAt(line, a + |StreamText(s)|, Space(s.space))
      && ContainsAt(line, a + |StreamText(s)| + |Space(s.space)|, s.typeName)
  {
    ContainsSlice(line, a, a + 6);
    ReadTailText(line, Some(line[a..a + 6]), a + 6, r);
  }

  lemma ReadSideShape(line: string, a: nat, r: nat)
    requires a < r <= |line|
    ensures var s := ReadSide(line, a, r);
      (s.stream.Some? ==> EqualsCI(s.stream.value, "stream")) && CanonicalSide(s)
      && (s.stream.Some? <==> StartsWithCIAt(line, a, "stream") && a + 6 < r)
  {
    var s := ReadSide(line, a, r);
    if StartsWithCIAt(line, a, "stream") && a + 6 < r {
      ReadTailText(line, Some(line[a..a + 6]), a + 6, r);
    } else {
      ReadTailText(line, None, a, r);
      if !s.space && |s.typeName| > 6 {
        assert s.typeName[..6] == line[a..a + 6];
      }
    }
  }

  /** What `MatchSide` finds is a well-formed, canonical side spelled up to the first `)`. */
  lemma MatchSideShape(line: string, a: nat, s: Side, r: nat)
    requires a <= |line| && MatchSide(line, a) == SideAt(s, r)
    ensures WellFormedSide(s) && CanonicalSide(s)
    ensures s.stream.Some? <==> StartsWithCIAt(line, a, "stream") && a + 6 < r
  {
    ReadSideShape(line, a, r);
    ReadSideText(line, a, r);
    CharsNotIn(line, r - |s.typeName|, r, ')');
  }

  lemma MatchSideText(line: string, a: nat, s: Side, r: nat)
    requires a <= |line| && MatchSide(line, a) == SideAt(s, r)
    ensures a + |SpellSide(s)| == r && ContainsAt(line, a, SpellSide(s) + ")")
  {
    ReadSideText(line, a, r);
    ContainsOne(line, r, ')');
    SidePieces(line, a, s);
  }

  /** What `MatchSide` finds is a well-formed, canonical side spelled up to the first `)`; the
      side is streamed exactly when `stream` opens it and something other than `)` follows. */
  lemma MatchSideSound(line: string, a: nat, s: Side, r: nat)
    requires a <= |line| && MatchSide(line, a) == SideAt(s, r)
    ensures FirstIndexFrom(line, a, ')') == Some(r)
    ensures WellFormedSide(s) && CanonicalSide(s)
    ensures a + |SpellSide(s)| == r && ContainsAt(line, a, SpellSide(s) + ")")
    ensures s.stream.Some? <==> StartsWithCIAt(line, a, "stream") && a + 6 < r
  {
    MatchSideShape(line, a, s, r);
    MatchSideText(line, a, s, r);
  }

  /** A well-formed side spelled up to a `)` ends at that `)`: the first one after its start. */
  lemma SideEndsAt(line: string, a: nat, s: Side)
    requires WellFormedSide(s) && ContainsAt(line, a, SpellSide(s) + ")")
    ensures a < a + |SpellSide(s)| < |line| && line[a..a + |SpellSide(s)|] == SpellSide(s)
    ensures FirstIndexFrom(line, a, ')') == Some(a + |SpellSide(s)|)
  {
    var r := a + |SpellSide(s)|;
    var text := SpellSide(s);
    ContainsAtConcat(line, a, text, ")");
    ContainsAtSlice(line, a, text);
    ContainsAtSlice(line, r, ")");
    assert line[r] == ')' by { assert line[r..r + 1] == ")"; }
    assert ')' !in text by {
      if s.stream.Some? { StreamKeywordChars(s.stream.value); }
    }
    forall k | a <= k < r ensures line[k] != ')' {
      assert line[k] == text[k - a];
    }
    FirstIndexIs(line, a, ')', r);
  }

  lemma ReadSideSpelledStream(line: string, a: nat, s: Side)
    requires WellFormedSide(s) && CanonicalSide(s) && s.stream.Some?
    requires a < a + |SpellSide(s)| <= |line| && line[a..a + |SpellSide(s)|] == SpellSide(s)
    ensures ReadSide(line, a, a + |SpellSide(s)|) == s
  {
    var r := a + |SpellSide(s)|;
    var text := SpellSide(s);
    var kw := s.stream.value;
    assert line[a..a + 6] == kw by { assert text[..6] == kw; }
    assert StartsWithCIAt(line, a, "stream");
    if s.space {
      assert line[a + 6] == ' ' by { assert text[6] == ' '; }
      assert line[a + 7..r] == s.typeName by { assert text[7..] == s.typeName; }
    } else {
      assert line[a + 6] == text[6];
      assert line[a + 6..r] == s.typeName by { assert text[6..] == s.typeName; }
    }
  }

  lemma ReadSideSpelledPlain(line: string, a: nat, s: Side)
    requires WellFormedSide(s) && CanonicalSide(s) && s.stream.None?
    requires a < a + |SpellSide(s)| <= |line| && line[a..a + |SpellSide(s)|] == SpellSide(s)
    ensures ReadSide(line, a, a + |SpellSide(s)|) == s
  {
    var r := a + |SpellSide(s)|;
    var text := SpellSide(s);
    if s.space {
      assert line[a] == ' ' by { assert text[0] == ' '; }
      assert line[a + 1..r] == s.typeName by { assert text[1..] == s.typeName; }
    } else {
      assert text == s.typeName;
    }
  }

  /** Spelling a well-formed, canonical side up to a `)` is read back as that very side. */
  lemma MatchSideSpelled(line: string, a: nat, s: Side)
    requires WellFormedSide(s) && CanonicalSide(s) && ContainsAt(line, a, SpellSide(s) + ")")
    ensures MatchSide(line, a) == SideAt(s, a + |SpellSide(s)|)
  {
    SideEndsAt(line, a, s);
    if s.stream.Some? {
      ReadSideSpelledStream(line, a, s);
    } else {
      ReadSideSpelledPlain(line, a, s);
    }
  }

  /** Spelling any well-formed side up to a `)` is matched, ending at that `)`. */
  lemma MatchSideAny(line: string, a: nat, s: Side)
    requires WellFormedSide(s) && ContainsAt(line, a, SpellSide(s) + ")")
    ensures MatchSide(line, a).SideAt? && MatchSide(line, a).close == a + |SpellSide(s)|
  {
    SideEndsAt(line, a, s);
  }

  // ` ?returns ?\(` and ` ?{}`.

  /** What `MatchReturns` finds is a `returns` keyword with its spaces, then the `(`. */
  lemma ReturnsText(line: string, i: nat, x: Returns, n: nat)
    requires i <= |line| && MatchReturns(line, i) == ReturnsAt(x, n)
    ensures EqualsCI(x.keyword, "returns") && n == i + |SpellReturns(x)| + 1
    ensures ContainsAt(line, i, SpellReturns(x) + "(")
  {
    var b := SkipSpace(line, i);
    var c := SkipSpace(line, b + 7);
    ContainsSpace(line, i, x.spaceBefore);
    ContainsSlice(line, b, b + 7);
    ContainsSpace(line, b + 7, x.spaceAfter);
    ContainsOne(line, c, '(');
    ContainsAtConcat(line, i, Space(x.spaceBefore) + x.keyword + Space(x.spaceAfter), "(");
    ContainsAtConcat(line, i, Space(x.spaceBefore) + x.keyword, Space(x.spaceAfter));
    ContainsAtConcat(line, i, Space(x.spaceBefore), x.keyword);
  }

  lemma ReturnsKeywordChars(x: string)
    requires EqualsCI(x, "returns")
    ensures x[0] != ' ' && x[0] != '('
  {
    assert LowerAscii(x[0]) == 'r';
  }

  /** A `returns` keyword with its spaces and the `(` are read back as written. */
  lemma MatchReturnsSpelled(line: string, i: nat, x: Returns)
    requires EqualsCI(x.keyword, "returns") && ContainsAt(line, i, SpellReturns(x) + "(")
    ensures i <= |line| && MatchReturns(line, i) == ReturnsAt(x, i + |SpellReturns(x)| + 1)
  {
    var b := i + |Space(x.spaceBefore)|;
    var c := b + 7;
    ContainsAtConcat(line, i, Space(x.spaceBefore) + x.keyword + Space(x.spaceAfter), "(");
    ContainsAtConcat(line, i, Space(x.spaceBefore) + x.keyword, Space(x.spaceAfter));
    ContainsAtConcat(line, i, Space(x.spaceBefore), x.keyword);
    ContainsAtSlice(line, i, Space(x.spaceBefore));
    ContainsAtSlice(line, b, x.keyword);
    ContainsAtSlice(line, c, Space(x.spaceAfter));
    var d := c + |Space(x.spaceAfter)|;
    ContainsAtSlice(line, d, "(");
    assert line[d] == '(' by { assert line[d..d + 1] == "("; }
    ReturnsKeywordChars(x.keyword);
    assert line[b] == x.keyword[0];
    if x.spaceBefore {
      assert line[i] == ' ' by { assert line[i..i + 1] == " "; }
    }
    assert SkipSpace(line, i) == b;
    if x.spaceAfter {
      assert line[c] == ' ' by { assert line[c..c + 1] == " "; }
    }
    assert SkipSpace(line, c) == d;
  }

  /** What `MatchBody` finds is the body `{}` with its space. */
  lemma BodyText(line: string, i: nat, space: bool)
    requires i <= |line| && MatchBody(line, i) == BodyAt(space)
    ensures ContainsAt(line, i, Space(space) + "{}")
  {
    var e := SkipSpace(line, i);
    ContainsSpace(line, i, space);
    ContainsSlice(line, e, e + 2);
    assert line[e..e + 2] == "{}" by {
      assert LowerAscii(line[e..e + 2][0]) == '{' && LowerAscii(line[e..e + 2][1]) == '}';
    }
    ContainsAtConcat(line, i, Space(space), "{}");
  }

  /** The body `{}` with or without its space is read back as written. */
  lemma MatchBodySpelled(line: string, i: nat, space: bool)
    requires ContainsAt(line, i, Space(space) + "{}")
    ensures i <= |line| && MatchBody(line, i) == BodyAt(space)
  {
    var e := i + |Space(space)|;
    ContainsAtConcat(line, i, Space(space), "{}");
    ContainsAtSlice(line, i, Space(space));
    ContainsAtSlice(line, e, "{}");
    assert line[e] == '{' by { assert line[e..e + 2][0] == '{'; }
    if space {
      assert line[i] == ' ' by { assert line[i..i + 1] == " "; }
    }
    assert SkipSpace(line, i) == e;
    assert EqualsCI(line[e..e + 2], "{}");
  }

  /** The spelling of a shape is its head followed by the rest. */
  lemma SpelledPieces(line: string, p: nat, sh: RpcShape)
    ensures SpelledAt(line, p, sh) <==>
      ContainsAt(line, p, SpellHead(sh)) && ContainsAt(line, p + |SpellHead(sh)|, SpellFromRequest(sh))
  {
    ContainsAtConcat(line, p, SpellHead(sh), SpellFromRequest(sh));
  }

  /** The spelling from the request on: the request side, its `)`, then the rest. */
  lemma FromRequestPieces(line: string, a: nat, sh: RpcShape)
    ensures ContainsAt(line, a, SpellFromRequest(sh)) <==>
      ContainsAt(line, a, SpellSide(sh.request) + ")")
      && ContainsAt(line, a + |SpellSide(sh.request)| + 1, SpellFromReturns(sh))
  {
    ContainsAtConcat(line, a, SpellSide(sh.request) + ")", SpellFromReturns(sh));
  }

  /** The spelling from `returns` on: ` ?returns ?(`, then the rest. */
  lemma FromReturnsPieces(line: string, i: nat, sh: RpcShape)
    ensures ContainsAt(line, i, SpellFromReturns(sh)) <==>
      ContainsAt(line, i, SpellReturns(sh.returnsPart) + "(")
      && ContainsAt(line, i + |SpellReturns(sh.returnsPart)| + 1, SpellFromResponse(sh))
  {
    ContainsAtConcat(line, i, SpellReturns(sh.returnsPart) + "(", SpellFromResponse(sh));
  }

  /** The spelling from the response on: the response side, its `)`, then the body. */
  lemma FromResponsePieces(line: string, a2: nat, sh: RpcShape)
    ensures ContainsAt(line, a2, SpellFromResponse(sh)) <==>
      ContainsAt(line, a2, SpellSide(sh.response) + ")")
      && ContainsAt(line, a2 + |SpellSide(sh.response)| + 1, SpellBody(sh))
  {
    ContainsAtConcat(line, a2, SpellSide(sh.response) + ")", SpellBody(sh));
  }

  lemma FromRequestJoin(line: string, a: nat, sh: RpcShape, r: nat)
    requires ContainsAt(line, a, SpellSide(sh.request) + ")") && r == a + |SpellSide(sh.request)|
    requires ContainsAt(line, r + 1, SpellFromReturns(sh))
    ensures ContainsAt(line, a, SpellFromRequest(sh))
  {
    FromRequestPieces(line, a, sh);
  }

  lemma FromReturnsJoin(line: string, i: nat, sh: RpcShape, a2: nat)
    requires ContainsAt(line, i, SpellReturns(sh.returnsPart) + "(") && a2 == i + |SpellReturns(sh.returnsPart)| + 1
    requires ContainsAt(line, a2, SpellFromResponse(sh))
    ensures ContainsAt(line, i, SpellFromReturns(sh))
  {
    FromReturnsPieces(line, i, sh);
  }

  lemma FromResponseJoin(line: string, a2: nat, sh: RpcShape, r2: nat)
    requires ContainsAt(line, a2, SpellSide(sh.response) + ")") && r2 == a2 + |SpellSide(sh.response)|
    requires ContainsAt(line, r2 + 1, SpellBody(sh))
    ensures ContainsAt(line, a2, SpellFromResponse(sh))
  {
    FromResponsePieces(line, a2, sh);
  }

  // ------------------------------------------------------------------ one stage at a time

  lemma MatchAtAfterHead(line: string, p: nat, a: nat)
    requires p <= |line| && MatchHead(line, p) == HeadAt(a)
    ensures MatchAt(line, p) == AfterHead(line, p, a)
  {
  }

  lemma AfterHeadAfterRequest(line: string, p: nat, a: nat, request: Side, r: nat)
    requires p + 6 <= a <= |line| && MatchSide(line, a) == SideAt(request, r)
    ensures AfterHead(line, p, a) == AfterRequest(line, p, a, request, r)
  {
  }

  lemma AfterRequestAfterReturns(line: string, p: nat, a: nat, request: Side, r: nat, x: Returns, a2: nat)
    requires p + 6 <= a <= r < |line| && MatchReturns(line, r + 1) == ReturnsAt(x, a2)
    ensures AfterRequest(line, p, a, request, r) == AfterReturns(line, p, a, request, x, a2)
  {
  }

  lemma AfterReturnsAfterResponse(line: string, p: nat, a: nat, request: Side, x: Returns, a2: nat,
                                  response: Side, r2: nat)
    requires p + 6 <= a <= |line| && a2 <= |line| && MatchSide(line, a2) == SideAt(response, r2)
    ensures AfterReturns(line, p, a, request, x, a2) == AfterResponse(line, p, a, request, x, response, r2)
  {
  }

  // ------------------------------------------------------------------ soundness, stage by stage

  lemma AfterResponseSound(line: string, p: nat, a: nat, request: Side, x: Returns, response: Side, r2: nat,
                           sh: RpcShape)
    requires p + 6 <= a <= |line| && r2 < |line|
    requires AfterResponse(line, p, a, request, x, response, r2) == Some(sh)
    ensures sh == RpcShape(line[p..p + 4], line[p + 4..a - 1], request, x, response, sh.spaceBeforeBody)
    ensures ContainsAt(line, r2 + 1, SpellBody(sh))
  {
    BodyText(line, r2 + 1, MatchBody(line, r2 + 1).space);
  }

  lemma AfterReturnsSound(line: string, p: nat, a: nat, request: Side, x: Returns, a2: nat, sh: RpcShape)
    requires p + 6 <= a <= |line| && a2 <= |line|
    requires AfterReturns(line, p, a, request, x, a2) == Some(sh)
    ensures sh.rpcKeyword == line[p..p + 4] && sh.methodName == line[p + 4..a - 1]
    ensures sh.request == request && sh.returnsPart == x
    ensures WellFormedSide(sh.response) && CanonicalSide(sh.response)
    ensures ContainsAt(line, a2, SpellFromResponse(sh))
  {
    var response, r2 := MatchSide(line, a2).side, MatchSide(line, a2).close;
    assert AfterReturns(line, p, a, request, x, a2) == AfterResponse(line, p, a, request, x, response, r2) by {
      AfterReturnsAfterResponse(line, p, a, request, x, a2, response, r2);
    }
    assert WellFormedSide(response) && CanonicalSide(response) by {
      MatchSideShape(line, a2, response, r2);
    }
    AfterResponseSound(line, p, a, request, x, response, r2, sh);
    assert ContainsAt(line, a2, SpellSide(response) + ")") && r2 == a2 + |SpellSide(response)| by {
      MatchSideText(line, a2, response, r2);
    }
    FromResponseJoin(line, a2, sh, r2);
  }

  lemma AfterRequestSound(line: string, p: nat, a: nat, request: Side, r: nat, sh: RpcShape)
    requires p + 6 <= a <= r < |line|
    requires AfterRequest(line, p, a, request, r) == Some(sh)
    ensures sh.rpcKeyword == line[p..p + 4] && sh.methodName == line[p + 4..a - 1] && sh.request == request
    ensures EqualsCI(sh.returnsPart.keyword, "returns")
    ensures WellFormedSide(sh.response) && CanonicalSide(sh.response)
    ensures ContainsAt(line, r + 1, SpellFromReturns(sh))
  {
    var x, a2 := MatchReturns(line, r + 1).returnsPart, MatchReturns(line, r + 1).next;
    assert AfterRequest(line, p, a, request, r) == AfterReturns(line, p, a, request, x, a2) by {
      AfterRequestAfterReturns(line, p, a, request, r, x, a2);
    }
    assert EqualsCI(x.keyword, "returns") && a2 == r + 1 + |SpellReturns(x) + "("|
      && ContainsAt(line, r + 1, SpellReturns(x) + "(") by {
      ReturnsText(line, r + 1, x, a2);
    }
    AfterReturnsSound(line, p, a, request, x, a2, sh);
    FromReturnsJoin(line, r + 1, sh, a2);
  }

  lemma AfterHeadSound(line: string, p: nat, a: nat, sh: RpcShape)
    requires p + 6 <= a <= |line|
    requires AfterHead(line, p, a) == Some(sh)
    ensures sh.rpcKeyword == line[p..p + 4] && sh.methodName == line[p + 4..a - 1]
    ensures WellFormedSide(sh.request) && CanonicalSide(sh.request)
    ensures EqualsCI(sh.returnsPart.keyword, "returns")
    ensures WellFormedSide(sh.response) && CanonicalSide(sh.response)
    ensures ContainsAt(line, a, SpellFromRequest(sh))
  {
    var request, r := MatchSide(line, a).side, MatchSide(line, a).close;
    assert AfterHead(line, p, a) == AfterRequest(line, p, a, request, r) by {
      AfterHeadAfterRequest(line, p, a, request, r);
    }
    assert WellFormedSide(request) && CanonicalSide(request) by {
      MatchSideShape(line, a, request, r);
    }
    assert ContainsAt(line, a, SpellSide(request) + ")") && r == a + |SpellSide(request)| by {
      MatchSideText(line, a, request, r);
    }
    AfterRequestSound(line, p, a, request, r, sh);
    FromRequestJoin(line, a, sh, r);
  }

  lemma MatchAtSoundPieces(line: string, p: nat, sh: RpcShape)
    requires p <= |line| && MatchAt(line, p) == Some(sh)
    ensures WellFormed(sh) && Canonical(sh)
    ensures ContainsAt(line, p, SpellHead(sh)) && ContainsAt(line, p + |SpellHead(sh)|, SpellFromRequest(sh))
  {
    var a := MatchHead(line, p).next;
    assert MatchAt(line, p) == AfterHead(line, p, a) by {
      MatchAtAfterHead(line, p, a);
    }
    assert EqualsCI(line[p..p + 4], "rpc ") && line[p + 4..a - 1] != [] && '(' !in line[p + 4..a - 1]
      && ContainsAt(line, p, line[p..p + 4] + line[p + 4..a - 1] + "(") by {
      HeadText(line, p, a);
    }
    AfterHeadSound(line, p, a, sh);
  }

  /** Soundness: a match of `MatchAt` is a well-formed, canonical shape spelled where it begins. */
  lemma MatchAtSound(line: string, p: nat)
    requires p <= |line| && MatchAt(line, p).Some?
    ensures WellFormed(MatchAt(line, p).value) && Canonical(MatchAt(line, p).value)
    ensures SpelledAt(line, p, MatchAt(line, p).value)
  {
    var sh := MatchAt(line, p).value;
    MatchAtSoundPieces(line, p, sh);
    SpelledPieces(line, p, sh);
  }

  // ------------------------------------------------------------------ completeness, stage by stage

  lemma AfterResponseSpelled(line: string, p: nat, a: nat, sh: RpcShape, r2: nat)
    requires p + 6 <= a <= |line| && r2 < |line|
    requires sh.rpcKeyword == line[p..p + 4] && sh.methodName == line[p + 4..a - 1]
    requires ContainsAt(line, r2 + 1, SpellBody(sh))
    ensures AfterResponse(line, p, a, sh.request, sh.returnsPart, sh.response, r2) == Some(sh)
  {
    MatchBodySpelled(line, r2 + 1, sh.spaceBeforeBody);
  }

  lemma AfterReturnsSpelled(line: string, p: nat, a: nat, sh: RpcShape, a2: nat)
    requires p + 6 <= a <= |line| && a2 <= |line|
    requires sh.rpcKeyword == line[p..p + 4] && sh.methodName == line[p + 4..a - 1]
    requires WellFormedSide(sh.response) && CanonicalSide(sh.response)
    requires ContainsAt(line, a2, SpellFromResponse(sh))
    ensures AfterReturns(line, p, a, sh.request, sh.returnsPart, a2) == Some(sh)
  {
    var r2 := a2 + |SpellSide(sh.response)|;
    assert ContainsAt(line, a2, SpellSide(sh.response) + ")") && ContainsAt(line, r2 + 1, SpellBody(sh)) by {
      FromResponsePieces(line, a2, sh);
    }
    assert MatchSide(line, a2) == SideAt(sh.response, r2) by {
      MatchSideSpelled(line, a2, sh.response);
    }
    assert AfterReturns(line, p, a, sh.request, sh.returnsPart, a2)
      == AfterResponse(line, p, a, sh.request, sh.returnsPart, sh.response, r2) by {
      AfterReturnsAfterResponse(line, p, a, sh.request, sh.returnsPart, a2, sh.response, r2);
    }
    AfterResponseSpelled(line, p, a, sh, r2);
  }

  lemma AfterRequestSpelled(line: string, p: nat, a: nat, sh: RpcShape, r: nat)
    requires p + 6 <= a <= r < |line|
    requires sh.rpcKeyword == line[p..p + 4] && sh.methodName == line[p + 4..a - 1]
    requires EqualsCI(sh.returnsPart.keyword, "returns")
    requires WellFormedSide(sh.response) && CanonicalSide(sh.response)
    requires ContainsAt(line, r + 1, SpellFromReturns(sh))
    ensures AfterRequest(line, p, a, sh.request, r) == Some(sh)
  {
    var a2 := r + 1 + |SpellReturns(sh.returnsPart)| + 1;
    assert ContainsAt(line, r + 1, SpellReturns(sh.returnsPart) + "(")
      && ContainsAt(line, a2, SpellFromResponse(sh)) by {
      FromReturnsPieces(line, r + 1, sh);
    }
    assert MatchReturns(line, r + 1) == ReturnsAt(sh.returnsPart, a2) by {
      MatchReturnsSpelled(line, r + 1, sh.returnsPart);
    }
    assert AfterRequest(line, p, a, sh.request, r) == AfterReturns(line, p, a, sh.request, sh.returnsPart, a2) by {
      AfterRequestAfterReturns(line, p, a, sh.request, r, sh.returnsPart, a2);
    }
    AfterReturnsSpelled(line, p, a, sh, a2);
  }

  lemma AfterHeadSpelled(line: string, p: nat, a: nat, sh: RpcShape)
    requires p + 6 <= a <= |line|
    requires sh.rpcKeyword == line[p..p + 4] && sh.methodName == line[p + 4..a - 1]
    requires WellFormedSide(sh.request) && CanonicalSide(sh.request)
    requires EqualsCI(sh.returnsPart.keyword, "returns")
    requires WellFormedSide(sh.response) && CanonicalSide(sh.response)
    requires ContainsAt(line, a, SpellFromRequest(sh))
    ensures AfterHead(line, p, a) == Some(sh)
  {
    var r := a + |SpellSide(sh.request)|;
    assert ContainsAt(line, a, SpellSide(sh.request) + ")") && ContainsAt(line, r + 1, SpellFromReturns(sh)) by {
      FromRequestPieces(line, a, sh);
    }
    assert MatchSide(line, a) == SideAt(sh.request, r) by {
      MatchSideSpelled(line, a, sh.request);
    }
    assert AfterHead(line, p, a) == AfterRequest(line, p, a, sh.request, r) by {
      AfterHeadAfterRequest(line, p, a, sh.request, r);
    }
    AfterRequestSpelled(line, p, a, sh, r);
  }

  lemma MatchAtPieces(line: string, p: nat, sh: RpcShape)
    requires WellFormed(sh) && Canonical(sh)
    requires ContainsAt(line, p, SpellHead(sh)) && ContainsAt(line, p + |SpellHead(sh)|, SpellFromRequest(sh))
    ensures p <= |line| && MatchAt(line, p) == Some(sh)
  {
    var a := p + |SpellHead(sh)|;
    assert a <= |line| && MatchHead(line, p) == HeadAt(a) && line[p..p + 4] == sh.rpcKeyword
      && line[p + 4..a - 1] == sh.methodName by {
      MatchHeadSpelled(line, p, sh);
    }
    assert AfterHead(line, p, a) == Some(sh) by {
      AfterHeadSpelled(line, p, a, sh);
    }
    MatchAtAfterHead(line, p, a);
  }

  /** Completeness: a well-formed, canonical shape spelled at `p` is what `MatchAt` finds there. */
  lemma MatchAtSpelled(line: string, p: nat, sh: RpcShape)
    requires WellFormed(sh) && Canonical(sh) && SpelledAt(line, p, sh)
    ensures p <= |line| && MatchAt(line, p) == Some(sh)
  {
    SpelledPieces(line, p, sh);
    MatchAtPieces(line, p, sh);
  }

  // ------------------------------------------------------------------ any well-formed spelling is found

  lemma AfterReturnsAny(line: string, p: nat, a: nat, request: Side, x: Returns, a2: nat, sh: RpcShape)
    requires p + 6 <= a <= |line| && a2 <= |line|
    requires WellFormedSide(sh.response) && ContainsAt(line, a2, SpellFromResponse(sh))
    ensures AfterReturns(line, p, a, request, x, a2).Some?
  {
    var r2 := a2 + |SpellSide(sh.response)|;
    assert ContainsAt(line, a2, SpellSide(sh.response) + ")") && ContainsAt(line, r2 + 1, SpellBody(sh)) by {
      FromResponsePieces(line, a2, sh);
    }
    assert MatchSide(line, a2).SideAt? && MatchSide(line, a2).close == r2 by {
      MatchSideAny(line, a2, sh.response);
    }
    assert MatchBody(line, r2 + 1).BodyAt? by {
      MatchBodySpelled(line, r2 + 1, sh.spaceBeforeBody);
    }
    AfterReturnsAfterResponse(line, p, a, request, x, a2, MatchSide(line, a2).side, r2);
  }

  lemma AfterRequestAny(line: string, p: nat, a: nat, request: Side, r: nat, sh: RpcShape)
    requires p + 6 <= a <= r < |line|
    requires EqualsCI(sh.returnsPart.keyword, "returns") && WellFormedSide(sh.response)
    requires ContainsAt(line, r + 1, SpellFromReturns(sh))
    ensures AfterRequest(line, p, a, request, r).Some?
  {
    var a2 := r + 1 + |SpellReturns(sh.returnsPart)| + 1;
    assert ContainsAt(line, r + 1, SpellReturns(sh.returnsPart) + "(")
      && ContainsAt(line, a2, SpellFromResponse(sh)) by {
      FromReturnsPieces(line, r + 1, sh);
    }
    assert MatchReturns(line, r + 1) == ReturnsAt(sh.returnsPart, a2) by {
      MatchReturnsSpelled(line, r + 1, sh.returnsPart);
    }
    AfterRequestAnyStep(line, p, a, request, r, sh.returnsPart, a2, sh);
  }

  lemma AfterRequestAnyStep(line: string, p: nat, a: nat, request: Side, r: nat, x: Returns, a2: nat, sh: RpcShape)
    requires p + 6 <= a <= r < |line| && a2 <= |line|
    requires MatchReturns(line, r + 1) == ReturnsAt(x, a2)
    requires WellFormedSide(sh.response) && ContainsAt(line, a2, SpellFromResponse(sh))
    ensures AfterRequest(line, p, a, request, r).Some?
  {
    AfterRequestAfterReturns(line, p, a, request, r, x, a2);
    AfterReturnsAny(line, p, a, request, x, a2, sh);
  }

  lemma AfterHeadAny(line: string, p: nat, a: nat, sh: RpcShape)
    requires p + 6 <= a <= |line|
    requires WellFormedSide(sh.request) && EqualsCI(sh.returnsPart.keyword, "returns")
    requires WellFormedSide(sh.response) && ContainsAt(line, a, SpellFromRequest(sh))
    ensures AfterHead(line, p, a).Some?
  {
    var r := a + |SpellSide(sh.request)|;
    assert ContainsAt(line, a, SpellSide(sh.request) + ")") && ContainsAt(line, r + 1, SpellFromReturns(sh)) by {
      FromRequestPieces(line, a, sh);
    }
    assert MatchSide(line, a).SideAt? && MatchSide(line, a).close == r by {
      MatchSideAny(line, a, sh.request);
    }
    assert AfterRequest(line, p, a, MatchSide(line, a).side, r).Some? by {
      AfterRequestAny(line, p, a, MatchSide(line, a).side, r, sh);
    }
    AfterHeadAfterRequest(line, p, a, MatchSide(line, a).side, r);
  }

  lemma MatchAtAnyPieces(line: string, p: nat, sh: RpcShape)
    requires WellFormed(sh)
    requires ContainsAt(line, p, SpellHead(sh)) && ContainsAt(line, p + |SpellHead(sh)|, SpellFromRequest(sh))
    ensures p <= |line| && MatchAt(line, p).Some?
  {
    var a := p + |SpellHead(sh)|;
    assert a <= |line| && MatchHead(line, p) == HeadAt(a) && line[p..p + 4] == sh.rpcKeyword by {
      MatchHeadSpelled(line, p, sh);
    }
    assert AfterHead(line, p, a).Some? by {
      AfterHeadAny(line, p, a, sh);
    }
    MatchAtAfterHead(line, p, a);
  }

  /** Any well-formed shape spelled at `p`, canonical or not, makes `MatchAt` succeed there. */
  lemma MatchAtAny(line: string, p: nat, sh: RpcShape)
    requires WellFormed(sh) && SpelledAt(line, p, sh)
    ensures p <= |line| && MatchAt(line, p).Some?
  {
    SpelledPieces(line, p, sh);
    MatchAtAnyPieces(line, p, sh);
  }
}
