/** The two whole-text passes of src/index.ts that run before the line translator:
    `getProtoVersion`, which reads the declared syntax version, and `stripUselessSyntax`,
    which blanks out `syntax` and `option` statements. */
module SyntaxFilter {
  import opened Wrappers
  import opened Text

  // ------------------------------------------------------------------ getProtoVersion

  /** The regular expression `(?!syntax = ")(proto[0-9])(?=";)` with the `i` flag matches at `i`:
      `proto` in any case, one decimal digit, and then `";`. The negative lookahead asks for
      something that cannot begin where `proto` begins, so it is left out (see
      `LookaheadIsVacuous`). */
  predicate VersionAt(s: string, i: nat) {
    i + 8 <= |s| && StartsWithCIAt(s, i, "proto") && '0' <= s[i + 5] <= '9'
    && s[i + 6] == '"' && s[i + 7] == ';'
  }

  /** The leftmost index at or after `i` where the version pattern matches. */
  function FindVersion(s: string, i: nat): (r: Option<nat>)
    requires i <= |s|
    ensures r.Some? ==> i <= r.value && VersionAt(s, r.value)
    ensures r.Some? ==> forall k :: i <= k < r.value ==> !VersionAt(s, k)
    ensures r.None? ==> forall k :: i <= k ==> !VersionAt(s, k)
    decreases |s| - i
  {
    if VersionAt(s, i) then Some(i)
    else if i + 8 > |s| then None
    else FindVersion(s, i + 1)
  }

  /** `getProtoVersion`: the text of the first match, six characters in the case they were
      written in, or `None` (JavaScript's `null`) when nothing matches. */
  function ProtoVersion(s: string): Option<string> {
    match FindVersion(s, 0)
    case None => None
    case Some(i) => Some(s[i..i + 6])
  }

  /** A version is found exactly when the text holds the pattern somewhere, and then it is
      the spelling at the leftmost place that does. */
  lemma ProtoVersionLeftmost(s: string)
    ensures ProtoVersion(s).None? <==> forall k: nat :: !VersionAt(s, k)
    ensures ProtoVersion(s).Some? ==> exists i: nat ::
      VersionAt(s, i) && ProtoVersion(s).value == s[i..i + 6] && forall k: nat :: k < i ==> !VersionAt(s, k)
  {
    var r := FindVersion(s, 0);
    if r.Some? {
      var i := r.value;
      assert VersionAt(s, i) && ProtoVersion(s).value == s[i..i + 6];
    }
  }

  /** The version text is `proto` in some case followed by a digit. */
  lemma ProtoVersionShape(s: string)
    requires ProtoVersion(s).Some?
    ensures var v := ProtoVersion(s).value;
      |v| == 6 && EqualsCI(v[..5], "proto") && '0' <= v[5] <= '9'
  {
    var i := FindVersion(s, 0).value;
    var v := s[i..i + 6];
    assert v[..5] == s[i..i + 5];
  }

  /** Where `proto` begins, `syntax = "` cannot: the lookahead of the pattern never rejects. */
  lemma LookaheadIsVacuous(s: string, i: nat)
    requires VersionAt(s, i)
    ensures !StartsWithCIAt(s, i, "syntax = \"")
  {
    assert LowerAscii(s[i..i + 5][0]) == 'p';
  }

  /** A version statement in any case is reported as written: `PROTO3` stays upper case. */
  lemma ProtoVersionExamples(a: string, b: string, c: string)
    requires a == "syntax = \"proto2\";" && b == "syntax = \"PROTO3\";" && c == "syntax = 'proto3';"
    ensures ProtoVersion(a) == Some("proto2")
    ensures ProtoVersion(b) == Some("PROTO3")
    ensures ProtoVersion(c) == None
  {
    assert VersionAt(a, 10) && a[10..16] == "proto2";
    assert forall k: nat :: k < 10 ==> !VersionAt(a, k);
    assert VersionAt(b, 10) && b[10..16] == "PROTO3";
    assert forall k: nat :: k < 10 ==> !VersionAt(b, k);
    assert forall k: nat :: k < |c| ==> c[k] != '"';
    ProtoVersionLeftmost(a);
    ProtoVersionLeftmost(b);
    ProtoVersionLeftmost(c);
  }

  // ------------------------------------------------------------------ stripUselessSyntax

  /** What every stripped statement is replaced with; the document driver later drops each
      line that holds it. */
  const Marker := "--remove--"

  /** The six characters from `i` on, with ASCII letters folded to lower case. */
  function Lower6(s: string, i: nat): string
    requires i + 6 <= |s|
  {
    [LowerAscii(s[i]), LowerAscii(s[i + 1]), LowerAscii(s[i + 2]),
     LowerAscii(s[i + 3]), LowerAscii(s[i + 4]), LowerAscii(s[i + 5])]
  }

  /** One of the alternatives of `syntax.*|option.*` (with the `i` flag) begins at `i`. */
  predicate KeywordAt(s: string, i: nat) {
    i + 6 <= |s| && (Lower6(s, i) == "syntax" || Lower6(s, i) == "option")
  }

  /** The keyword test is the case-insensitive comparison of the pattern's regular expression. */
  lemma KeywordAtCI(s: string, i: nat)
    ensures KeywordAt(s, i) <==> StartsWithCIAt(s, i, "syntax") || StartsWithCIAt(s, i, "option")
  {
    if i + 6 <= |s| {
      var w := s[i..i + 6];
      assert forall m :: 0 <= m < 6 ==> Lower6(s, i)[m] == LowerAscii(w[m]);
    }
  }

  /** The global replace from index `i` on. Scanning from the left, a match begins at the
      first `syntax` or `option` in any case, and `.*` takes the rest of the line up to, not
      including, the next line terminator; the scan resumes there. Both alternatives are six
      letters long, so which one matched does not change where the match ends. */
  function StripFrom(s: string, i: nat): string
    requires i <= |s|
    decreases |s| - i
  {
    if i == |s| then []
    else if KeywordAt(s, i) then Marker + StripFrom(s, LineEndFrom(s, i + 6))
    else [s[i]] + StripFrom(s, i + 1)
  }

  /** `stripUselessSyntax`: the global, case-insensitive replace of `syntax.*` or `option.*` with `Marker`. */
  function StripUselessSyntax(s: string): string {
    StripFrom(s, 0)
  }

  /** Text with no `syntax` and no `option` in it from `i` on comes back unchanged. */
  lemma {:induction false} StripWithoutKeyword(s: string, i: nat)
    requires i <= |s| && forall k: nat :: i <= k ==> !KeywordAt(s, k)
    ensures StripFrom(s, i) == s[i..]
    decreases |s| - i
  {
    if i < |s| {
      StripWithoutKeyword(s, i + 1);
      assert s[i..] == [s[i]] + s[i + 1..];
    }
  }

  /** Everything before the first keyword is kept, and the first keyword starts a marker. */
  lemma {:induction false} StripAtFirstKeyword(s: string, i: nat, k: nat)
    requires i <= k && KeywordAt(s, k) && forall m: nat :: i <= m < k ==> !KeywordAt(s, m)
    ensures StripFrom(s, i) == s[i..k] + Marker + StripFrom(s, LineEndFrom(s, k + 6))
    decreases k - i
  {
    if i < k {
      StripAtFirstKeyword(s, i + 1, k);
      var r := StripFrom(s, LineEndFrom(s, k + 6));
      assert [s[i]] + (s[i + 1..k] + Marker + r) == ([s[i]] + s[i + 1..k]) + Marker + r;
      assert [s[i]] + s[i + 1..k] == s[i..k];
    }
  }

  /** The marker holds no line break, so the stripped text holds one only where the text did. */
  lemma {:induction false} StripKeepsLine(s: string, i: nat)
    requires i <= |s| && forall k :: i <= k < |s| ==> s[k] != '\n'
    ensures '\n' !in StripFrom(s, i)
    decreases |s| - i
  {
    if i < |s| {
      if KeywordAt(s, i) {
        StripKeepsLine(s, LineEndFrom(s, i + 6));
      } else {
        StripKeepsLine(s, i + 1);
      }
    }
  }

  lemma KeywordShift(p: string, y: string, j: nat)
    ensures KeywordAt(p + y, |p| + j) <==> KeywordAt(y, j)
  {
    if j + 6 <= |y| {
      assert Lower6(p + y, |p| + j) == Lower6(y, j);
    }
  }

  lemma LineEndShift(p: string, y: string, j: nat)
    requires j <= |y|
    ensures LineEndFrom(p + y, |p| + j) == |p| + LineEndFrom(y, j)
    decreases |y| - j
  {
    if j < |y| {
      assert (p + y)[|p| + j] == y[j];
      if !IsLineTerminator(y[j]) {
        LineEndShift(p, y, j + 1);
      }
    }
  }

  /** What follows a prefix is stripped as if the prefix were not there, once the scan has
      reached it. */
  lemma {:induction false} StripShift(p: string, y: string, j: nat)
    requires j <= |y|
    ensures StripFrom(p + y, |p| + j) == StripFrom(y, j)
    decreases |y| - j
  {
    if j < |y| {
      KeywordShift(p, y, j);
      assert (p + y)[|p| + j] == y[j];
      if KeywordAt(y, j) {
        LineEndShift(p, y, j + 6);
        StripShift(p, y, LineEndFrom(y, j + 6));
      } else {
        StripShift(p, y, j + 1);
      }
    }
  }

  /** A keyword in `x + rest` that starts inside `x`, where `rest` begins with a line
      terminator, lies wholly in `x`. */
  lemma KeywordInLine(x: string, rest: string, k: nat)
    requires k < |x| && rest != [] && IsLineTerminator(rest[0])
    ensures KeywordAt(x + rest, k) <==> KeywordAt(x, k)
  {
    var s := x + rest;
    if k + 6 <= |x| {
      assert Lower6(s, k) == Lower6(x, k);
    } else if k + 6 <= |s| {
      assert Lower6(s, k)[|x| - k] == LowerAscii(rest[0]) == rest[0];
    }
  }

  /** Seen from inside `x`, the line ends at the same place in `x` as in `x + rest`. */
  lemma LineEndInLine(x: string, rest: string, i: nat)
    requires i <= |x| && rest != [] && IsLineTerminator(rest[0])
    ensures LineEndFrom(x + rest, i) == LineEndFrom(x, i)
    decreases |x| - i
  {
    if i < |x| {
      assert (x + rest)[i] == x[i];
      if !IsLineTerminator(x[i]) {
        LineEndInLine(x, rest, i + 1);
      }
    } else {
      assert (x + rest)[i] == rest[0];
    }
  }

  /** Up to a line terminator, the scan over `x + rest` is the scan over `x`. */
  lemma {:induction false} StripInLine(x: string, rest: string, i: nat)
    requires i <= |x| && rest != [] && IsLineTerminator(rest[0])
    ensures StripFrom(x + rest, i) == StripFrom(x, i) + StripFrom(x + rest, |x|)
    decreases |x| - i
  {
    if i < |x| {
      KeywordInLine(x, rest, i);
      if KeywordAt(x, i) {
        LineEndInLine(x, rest, i + 6);
        StripInLine(x, rest, LineEndFrom(x, i + 6));
        StripInLineKeyword(x, rest, i);
      } else {
        StripInLine(x, rest, i + 1);
        StripInLineOther(x, rest, i);
      }
    }
  }

  lemma StripInLineKeyword(x: string, rest: string, i: nat)
    requires i < |x| && KeywordAt(x, i) && KeywordAt(x + rest, i)
    requires LineEndFrom(x + rest, i + 6) == LineEndFrom(x, i + 6)
    requires var e := LineEndFrom(x, i + 6);
      StripFrom(x + rest, e) == StripFrom(x, e) + StripFrom(x + rest, |x|)
    ensures StripFrom(x + rest, i) == StripFrom(x, i) + StripFrom(x + rest, |x|)
  {
    var e := LineEndFrom(x, i + 6);
    var tail := StripFrom(x + rest, |x|);
    assert Marker + (StripFrom(x, e) + tail) == (Marker + StripFrom(x, e)) + tail;
  }

  lemma StripInLineOther(x: string, rest: string, i: nat)
    requires i < |x| && !KeywordAt(x, i) && !KeywordAt(x + rest, i)
    requires StripFrom(x + rest, i + 1) == StripFrom(x, i + 1) + StripFrom(x + rest, |x|)
    ensures StripFrom(x + rest, i) == StripFrom(x, i) + StripFrom(x + rest, |x|)
  {
    var tail := StripFrom(x + rest, |x|);
    assert (x + rest)[i] == x[i];
    assert [x[i]] + (StripFrom(x, i + 1) + tail) == ([x[i]] + StripFrom(x, i + 1)) + tail;
  }

  /** The scan never crosses a line break: the text before a `\n` is stripped on its own. */
  lemma StripLines(x: string, y: string)
    requires '\n' !in x
    ensures StripUselessSyntax(x + "\n" + y) == StripUselessSyntax(x) + "\n" + StripUselessSyntax(y)
  {
    var s := x + "\n" + y;
    assert s == x + ("\n" + y);
    StripInLine(x, "\n" + y, 0);
    assert s[|x|] == '\n' && !KeywordAt(s, |x|) by {
      assert LowerAscii(s[|x|]) == '\n';
    }
    assert s == (x + "\n") + y;
    StripShift(x + "\n", y, 0);
  }

  /** Each line stripped on its own. */
  function StripEach(lines: seq<string>): (r: seq<string>)
    ensures |r| == |lines|
    ensures forall i :: 0 <= i < |lines| ==> r[i] == StripUselessSyntax(lines[i])
  {
    if lines == [] then [] else [StripUselessSyntax(lines[0])] + StripEach(lines[1..])
  }

  /** Splitting the stripped text into lines is stripping each line of the text. */
  lemma {:induction false} StripSplit(s: string)
    ensures Split(StripUselessSyntax(s), '\n') == StripEach(Split(s, '\n'))
    decreases |s|
  {
    var i := FirstIndexFrom(s, 0, '\n');
    if i.None? {
      SplitWithout(s, '\n');
      StripKeepsLine(s, 0);
      SplitWithout(StripUselessSyntax(s), '\n');
    } else {
      var x, y := s[..i.value], s[i.value + 1..];
      assert s == x + "\n" + y;
      assert '\n' !in x;
      StripLines(x, y);
      StripKeepsLine(x, 0);
      SplitAt(x, y, '\n');
      SplitAt(StripUselessSyntax(x), StripUselessSyntax(y), '\n');
      StripSplit(y);
      assert StripEach([x] + Split(y, '\n')) == [StripUselessSyntax(x)] + StripEach(Split(y, '\n'));
    }
  }

  lemma WhitespaceIsNoKeyword(s: string, m: nat)
    requires m < |s| && IsJsWhitespace(s[m])
    ensures !KeywordAt(s, m)
  {
    assert LowerAscii(s[m]) == s[m];
  }

  /** From a line terminator on, the stripped text also begins with it. */
  lemma StripFromTerminator(s: string, i: nat)
    requires i <= |s| && (i == |s| || IsLineTerminator(s[i]))
    ensures var r := StripFrom(s, i); r == [] || IsLineTerminator(r[0])
  {
    if i < |s| {
      assert !KeywordAt(s, i) by {
        assert LowerAscii(s[i]) == s[i];
      }
    }
  }

  /** A line that begins, after its indentation, with `syntax` or `option` in any case (an
      `optional` field among them) is stripped to its indentation followed by the marker, and
      what follows the marker begins with a line terminator when it is not empty. */
  lemma StripLeadingKeyword(w: string, x: string)
    requires AllWhitespace(w) && KeywordAt(x, 0)
    ensures exists rest :: (StripUselessSyntax(w + x) == w + Marker + rest
      && (rest == [] || IsLineTerminator(rest[0])))
  {
    var s := w + x;
    KeywordShift(w, x, 0);
    forall m: nat | m < |w| ensures !KeywordAt(s, m) {
      assert s[m] == w[m];
      WhitespaceIsNoKeyword(s, m);
    }
    StripAtFirstKeyword(s, 0, |w|);
    assert s[0..|w|] == w;
    var e := LineEndFrom(s, |w| + 6);
    StripFromTerminator(s, e);
  }

  /** The first keyword of a text whose last line holds it cuts the text there: all that
      follows it is replaced by the marker. */
  lemma StripInLastLine(s: string, k: nat)
    requires KeywordAt(s, k) && forall m: nat :: m < k ==> !KeywordAt(s, m)
    requires forall j :: k <= j < |s| ==> !IsLineTerminator(s[j])
    ensures StripUselessSyntax(s) == s[..k] + Marker
  {
    StripAtFirstKeyword(s, 0, k);
    assert LineEndFrom(s, k + 6) == |s|;
    assert s[0..k] + Marker + [] == s[..k] + Marker;
  }

  /** A keyword begins with `s` or `o`, in either case. */
  lemma NoKeywordAtLetter(s: string, m: nat)
    requires m < |s| && s[m] !in "sSoO"
    ensures !KeywordAt(s, m)
  {
  }

  /** A keyword after the field's tokens (here in a trailing comment) cuts only the rest of
      its line: the tokens before it are left as written. */
  lemma TrailingKeywordStripped(line: string)
    requires line == "string note = 1; // options"
    ensures StripUselessSyntax(line) == "string note = 1; // " + Marker
  {
    forall m: nat | m < 20 ensures !KeywordAt(line, m) {
      if m != 0 && m != 8 {
        NoKeywordAtLetter(line, m);
      }
    }
    StripInLastLine(line, 20);
  }

  /** A keyword inside a message name cuts the name and the opening brace that follows it. */
  lemma MessageNameStripped(line: string)
    requires line == "message Options {"
    ensures StripUselessSyntax(line) == "message " + Marker
  {
    forall m: nat | m < 8 ensures !KeywordAt(line, m) {
      if m != 2 && m != 3 {
        NoKeywordAtLetter(line, m);
      }
    }
    StripInLastLine(line, 8);
  }
}
