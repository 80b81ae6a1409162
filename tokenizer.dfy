/** The line tokenizer of src/index.ts: `line.trim().split(' ').filter(Boolean)`. */
module Tokenizer {
  import opened Text

  /** `.filter(Boolean)` on strings: keeps the non-empty pieces, in order. */
  function NonEmpty(parts: seq<string>): (r: seq<string>)
    ensures |r| <= |parts|
    ensures forall i :: 0 <= i < |r| ==> r[i] != []
    ensures forall x :: x in r <==> x in parts && x != []
  {
    if parts == [] then []
    else (if parts[0] == [] then [] else [parts[0]]) + NonEmpty(parts[1..])
  }

  /** The tokens of a line: the pieces between single spaces of the trimmed line, empty ones
      dropped. Only `' '` separates; a tab inside the line stays inside its token. */
  function Tokenize(line: string): seq<string> {
    NonEmpty(Split(Trim(line), ' '))
  }

  function Concat(ss: seq<string>): string {
    if ss == [] then [] else ss[0] + Concat(ss[1..])
  }

  function RemoveChar(s: string, c: char): (r: string)
    ensures c !in r
  {
    if s == [] then [] else (if s[0] == c then [] else [s[0]]) + RemoveChar(s[1..], c)
  }

  /** Every token is non-empty and free of spaces. */
  lemma TokensAreWords(line: string)
    ensures forall i :: 0 <= i < |Tokenize(line)| ==> Tokenize(line)[i] != [] && ' ' !in Tokenize(line)[i]
  {
    var parts := Split(Trim(line), ' ');
    forall i | 0 <= i < |Tokenize(line)|
      ensures ' ' !in Tokenize(line)[i]
    {
      assert Tokenize(line)[i] in parts;
    }
  }

  lemma {:induction false} ConcatNonEmpty(parts: seq<string>)
    ensures Concat(NonEmpty(parts)) == Concat(parts)
  {
    if parts != [] {
      ConcatNonEmpty(parts[1..]);
      if parts[0] != [] {
        assert NonEmpty(parts) == [parts[0]] + NonEmpty(parts[1..]);
        assert ([parts[0]] + NonEmpty(parts[1..]))[1..] == NonEmpty(parts[1..]);
      } else {
        assert NonEmpty(parts) == NonEmpty(parts[1..]);
      }
    }
  }

  lemma {:induction false} ConcatSplit(s: string, sep: char)
    ensures Concat(Split(s, sep)) == RemoveChar(s, sep)
  {
    if s != [] {
      ConcatSplit(s[1..], sep);
      var rest := Split(s[1..], sep);
      if s[0] == sep {
        assert Split(s, sep)[1..] == rest;
      } else {
        var parts := Split(s, sep);
        assert parts[1..] == rest[1..];
        assert Concat(rest) == rest[0] + Concat(rest[1..]);
      }
    }
  }

  /** Reading the tokens one after another gives the trimmed line with its spaces taken out:
      tokenizing loses the spaces and nothing else. */
  lemma TokensCover(line: string)
    ensures Concat(Tokenize(line)) == RemoveChar(Trim(line), ' ')
  {
    ConcatNonEmpty(Split(Trim(line), ' '));
    ConcatSplit(Trim(line), ' ');
  }

  /** An empty or whitespace-only line has no tokens. */
  lemma TokenizeBlank(line: string)
    requires AllWhitespace(line)
    ensures Tokenize(line) == []
  {
    assert Split([], ' ') == [[]];
  }

  /** When the trimmed line starts with a space-free word followed by a space or by nothing,
      that word is the first token. */
  lemma FirstToken(line: string, t: string, rest: string)
    requires Trim(line) == t + rest
    requires t != [] && ' ' !in t
    requires rest == [] || rest[0] == ' '
    ensures Tokenize(line) != [] && Tokenize(line)[0] == t
  {
    if rest == [] {
      assert t + rest == t;
      SplitWithout(t, ' ');
    } else {
      assert t + rest == t + [' '] + rest[1..];
      SplitAt(t, rest[1..], ' ');
    }
  }

  /** When the trimmed line starts with a space-free, non-empty `x`, the first token starts with `x`. */
  lemma FirstTokenPrefix(line: string, x: string)
    requires x != [] && ' ' !in x
    requires |x| <= |Trim(line)| && Trim(line)[..|x|] == x
    ensures Tokenize(line) != [] && |x| <= |Tokenize(line)[0]| && Tokenize(line)[0][..|x|] == x
  {
    var s := Trim(line);
    assert s == x + s[|x|..];
    SplitHead(x, s[|x|..], ' ');
  }

  predicate NoDoubleSpace(s: string) {
    forall k :: 0 <= k < |s| - 1 ==> !(s[k] == ' ' && s[k + 1] == ' ')
  }

  lemma {:induction false} SplitPiecesNonEmpty(s: string)
    requires s != [] && s[|s| - 1] != ' ' && NoDoubleSpace(s)
    ensures forall i :: 1 <= i < |Split(s, ' ')| ==> Split(s, ' ')[i] != []
    ensures Split(s, ' ')[0] == [] <==> s[0] == ' '
  {
    if |s| > 1 {
      var t := s[1..];
      assert NoDoubleSpace(t) by {
        forall k | 0 <= k < |t| - 1 ensures !(t[k] == ' ' && t[k + 1] == ' ') {
          assert t[k] == s[k + 1] && t[k + 1] == s[k + 2];
        }
      }
      SplitPiecesNonEmpty(t);
      if s[0] == ' ' {
        assert t[0] != ' ';
        assert Split(s, ' ') == [[]] + Split(t, ' ');
      }
    }
  }

  lemma {:induction false} NonEmptyKeeps(parts: seq<string>)
    requires forall i :: 0 <= i < |parts| ==> parts[i] != []
    ensures NonEmpty(parts) == parts
  {
    if parts != [] {
      NonEmptyKeeps(parts[1..]);
      assert [parts[0]] + parts[1..] == parts;
    }
  }

  /** When the trimmed line has no two spaces in a row, joining the tokens with single
      spaces gives the trimmed line back. */
  lemma TokenizeJoin(line: string)
    requires NoDoubleSpace(Trim(line))
    ensures Join(Tokenize(line), " ") == Trim(line)
  {
    var s := Trim(line);
    if s == [] {
      assert Split(s, ' ') == [[]];
    } else {
      SplitPiecesNonEmpty(s);
      NonEmptyKeeps(Split(s, ' '));
      JoinSplit(s, ' ');
    }
  }

  lemma {:induction false} JoinEnds(words: seq<string>, sep: string)
    requires |words| >= 1 && forall i :: 0 <= i < |words| ==> words[i] != []
    ensures var s := Join(words, sep);
      s != [] && s[0] == words[0][0] && s[|s| - 1] == words[|words| - 1][|words[|words| - 1]| - 1]
  {
    if |words| > 1 {
      JoinEnds(words[1..], sep);
      var rest := Join(words[1..], sep);
      assert Join(words, sep) == words[0] + sep + rest;
    }
  }

  /** Text with no whitespace at either end trims to itself. */
  lemma JoinTrimmed(s: string)
    requires s != [] && !IsJsWhitespace(s[0]) && !IsJsWhitespace(s[|s| - 1])
    ensures Trim(s) == s
  {
    assert SkipWhitespace(s, 0) == 0;
    assert TrimStart(s) == s;
    assert BackWhitespace(s, |s|) == |s|;
  }

  /** Space-free words joined by single spaces, with no whitespace at either end, tokenize
      back to the words. */
  lemma TokenizeWords(words: seq<string>)
    requires |words| >= 1 && forall i :: 0 <= i < |words| ==> words[i] != [] && ' ' !in words[i]
    requires !IsJsWhitespace(words[0][0]) && !IsJsWhitespace(words[|words| - 1][|words[|words| - 1]| - 1])
    ensures Tokenize(Join(words, " ")) == words
  {
    JoinEnds(words, " ");
    JoinTrimmed(Join(words, " "));
    SplitJoin(words, ' ');
    NonEmptyKeeps(words);
  }

  // ------------------------------------------------------------------ order and runs of spaces

  /** `.filter(Boolean)` on one piece. */
  lemma NonEmptyOne(x: string)
    ensures NonEmpty([x]) == if x == [] then [] else [x]
  {
    assert [x][1..] == [];
  }

  lemma NonEmptyCons(x: string, rest: seq<string>)
    ensures NonEmpty([x] + rest) == (if x == [] then [] else [x]) + NonEmpty(rest)
  {
    assert ([x] + rest)[0] == x && ([x] + rest)[1..] == rest;
  }

  /** `.filter(Boolean)` keeps order and multiplicity: filtering a concatenation filters
      each part. */
  lemma {:induction false} NonEmptyAppend(a: seq<string>, b: seq<string>)
    ensures NonEmpty(a + b) == NonEmpty(a) + NonEmpty(b)
  {
    if a == [] {
      assert a + b == b;
    } else {
      NonEmptyAppend(a[1..], b);
      assert a == [a[0]] + a[1..] && a + b == [a[0]] + (a[1..] + b);
      NonEmptyCons(a[0], a[1..]);
      NonEmptyCons(a[0], a[1..] + b);
    }
  }

  function Spaces(n: nat): string {
    if n == 0 then [] else [' '] + Spaces(n - 1)
  }

  /** A leading space splits off one empty piece. */
  lemma SplitSpaceHead(z: string)
    ensures Split([' '] + z, ' ') == [[]] + Split(z, ' ')
  {
    SplitAt([], z, ' ');
    assert [] + [' '] + z == [' '] + z;
  }

  lemma SpacesCons(n: nat, y: string)
    requires n > 0
    ensures Spaces(n) + y == [' '] + (Spaces(n - 1) + y)
  {
  }

  /** Leading spaces only add empty pieces, which the filter drops. */
  lemma {:induction false} SplitSpaces(n: nat, y: string)
    ensures NonEmpty(Split(Spaces(n) + y, ' ')) == NonEmpty(Split(y, ' '))
  {
    if n == 0 {
      assert Spaces(n) + y == y;
    } else {
      var z := Spaces(n - 1) + y;
      SplitSpaces(n - 1, y);
      SpacesCons(n, y);
      SplitSpaceHead(z);
      NonEmptyCons([], Split(z, ' '));
      assert [] + NonEmpty(Split(z, ' ')) == NonEmpty(Split(z, ' '));
    }
  }

  /** Words separated by runs of spaces: `gaps[i] >= 1` spaces between `words[i]` and
      `words[i + 1]`, as in an aligned field line `string  name = 1;`. */
  function Spaced(words: seq<string>, gaps: seq<nat>): string
    requires |words| == |gaps| + 1
  {
    if |words| == 1 then words[0]
    else words[0] + Spaces(gaps[0]) + Spaced(words[1..], gaps[1..])
  }

  /** Splitting words separated by runs of spaces and dropping the empty pieces gives the words. */
  lemma {:induction false} SplitSpaced(words: seq<string>, gaps: seq<nat>)
    requires |words| == |gaps| + 1
    requires forall i :: 0 <= i < |words| ==> words[i] != [] && ' ' !in words[i]
    requires forall i :: 0 <= i < |gaps| ==> gaps[i] >= 1
    ensures NonEmpty(Split(Spaced(words, gaps), ' ')) == words
  {
    if |words| == 1 {
      SplitWithout(words[0], ' ');
      NonEmptyOne(words[0]);
    } else {
      SplitSpaced(words[1..], gaps[1..]);
      SplitGap(words[0], gaps[0], Spaced(words[1..], gaps[1..]));
      assert [words[0]] + words[1..] == words;
    }
  }

  /** One run of `g >= 1` spaces after a word is one boundary. */
  lemma SplitGap(w: string, g: nat, rest: string)
    requires w != [] && ' ' !in w && g >= 1
    ensures NonEmpty(Split(w + Spaces(g) + rest, ' ')) == [w] + NonEmpty(Split(rest, ' '))
  {
    var z := Spaces(g - 1) + rest;
    SpacesCons(g, rest);
    assert w + Spaces(g) + rest == w + [' '] + z;
    SplitAt(w, z, ' ');
    NonEmptyCons(w, Split(z, ' '));
    SplitSpaces(g - 1, rest);
  }

  lemma {:induction false} SpacedEnds(words: seq<string>, gaps: seq<nat>)
    requires |words| == |gaps| + 1 && forall i :: 0 <= i < |words| ==> words[i] != []
    ensures var s := Spaced(words, gaps);
      s != [] && s[0] == words[0][0] && s[|s| - 1] == words[|words| - 1][|words[|words| - 1]| - 1]
  {
    if |words| > 1 {
      SpacedEnds(words[1..], gaps[1..]);
      var rest := Spaced(words[1..], gaps[1..]);
      assert Spaced(words, gaps) == words[0] + Spaces(gaps[0]) + rest;
    }
  }

  /** Space-free words separated by runs of spaces, with no whitespace at either end of the
      line, tokenize to the words: a run of spaces is one token boundary. */
  lemma TokenizeSpaced(words: seq<string>, gaps: seq<nat>)
    requires |words| == |gaps| + 1
    requires forall i :: 0 <= i < |words| ==> words[i] != [] && ' ' !in words[i]
    requires forall i :: 0 <= i < |gaps| ==> gaps[i] >= 1
    requires !IsJsWhitespace(words[0][0]) && !IsJsWhitespace(words[|words| - 1][|words[|words| - 1]| - 1])
    ensures Tokenize(Spaced(words, gaps)) == words
  {
    SpacedEnds(words, gaps);
    JoinTrimmed(Spaced(words, gaps));
    SplitSpaced(words, gaps);
  }

  /** The aligned field line `string  name = 1;`, with two spaces after the type. */
  lemma AlignedFieldTokens(line: string)
    requires line == "string  name = 1;"
    ensures Tokenize(line) == ["string", "name", "=", "1;"]
  {
    var words := ["string", "name", "=", "1;"];
    var gaps: seq<nat> := [2, 1, 1];
    assert Spaced(words[3..], gaps[3..]) == "1;";
    assert Spaced(words[2..], gaps[2..]) == "= 1;";
    assert Spaced(words[1..], gaps[1..]) == "name = 1;";
    assert Spaced(words, gaps) == line;
    TokenizeSpaced(words, gaps);
  }

  /** A tab between two words does not separate them. */
  lemma TabIsNotSeparator()
    ensures Tokenize("int32\tid") == ["int32\tid"]
  {
    var line := "int32\tid";
    assert !IsJsWhitespace(line[0]) && !IsJsWhitespace(line[|line| - 1]);
    assert TrimStart(line) == line;
    assert Trim(line) == line;
    FirstToken(line, line, []);
    SplitWithout(line, ' ');
  }
}
