/** String helpers that mirror the JavaScript string operations the translator relies on. */
module Text {
  import opened Wrappers

  /** The characters `String.prototype.trim` removes: ECMAScript WhiteSpace and LineTerminator. */
  predicate IsJsWhitespace(c: char) {
    c in {'\t', '\n', '\U{000B}', '\U{000C}', '\r', ' ', '\U{00A0}', '\U{1680}',
          '\U{2028}', '\U{2029}', '\U{202F}', '\U{205F}', '\U{3000}', '\U{FEFF}'}
    || ('\U{2000}' <= c <= '\U{200A}')
  }

  /** The characters that end a line for the regular-expression `.`. */
  predicate IsLineTerminator(c: char) {
    c == '\n' || c == '\r' || c == '\U{2028}' || c == '\U{2029}'
  }

  predicate AllWhitespace(s: string) {
    forall k :: 0 <= k < |s| ==> IsJsWhitespace(s[k])
  }

  // ---------------------------------------------------------------- trimming

  /** The index of the first character at or after `i` that is not whitespace, or `|s|`. */
  function SkipWhitespace(s: string, i: nat): (n: nat)
    requires i <= |s|
    ensures i <= n <= |s|
    ensures forall k :: i <= k < n ==> IsJsWhitespace(s[k])
    ensures n < |s| ==> !IsJsWhitespace(s[n])
    decreases |s| - i
  {
    if i < |s| && IsJsWhitespace(s[i]) then SkipWhitespace(s, i + 1) else i
  }

  /** The index just after the last character before `j` that is not whitespace, or 0. */
  function BackWhitespace(s: string, j: nat): (n: nat)
    requires j <= |s|
    ensures n <= j
    ensures forall k :: n <= k < j ==> IsJsWhitespace(s[k])
    ensures n > 0 ==> !IsJsWhitespace(s[n - 1])
  {
    if j > 0 && IsJsWhitespace(s[j - 1]) then BackWhitespace(s, j - 1) else j
  }

  function TrimStart(s: string): (r: string)
    ensures |r| <= |s| && r == s[|s| - |r|..]
    ensures AllWhitespace(s[..|s| - |r|])
    ensures r != [] ==> !IsJsWhitespace(r[0])
  {
    s[SkipWhitespace(s, 0)..]
  }

  function TrimEnd(s: string): (r: string)
    ensures |r| <= |s| && r == s[..|r|]
    ensures AllWhitespace(s[|r|..])
    ensures r != [] ==> !IsJsWhitespace(r[|r| - 1])
  {
    s[..BackWhitespace(s, |s|)]
  }

  /** `s.trim()`: the infix of `s` left once whitespace is removed from both ends. */
  function Trim(s: string): (r: string)
    ensures r != [] ==> !IsJsWhitespace(r[0]) && !IsJsWhitespace(r[|r| - 1])
    ensures AllWhitespace(s) <==> r == []
  {
    TrimEnd(TrimStart(s))
  }

  /** The trimmed text is the infix of `s` between a whitespace prefix and a whitespace
      suffix; together with the ends `Trim` guarantees, these are the longest such. */
  lemma TrimInfix(s: string)
    ensures exists a: nat, b: nat | a <= b <= |s| ::
      Trim(s) == s[a..b] && AllWhitespace(s[..a]) && AllWhitespace(s[b..])
  {
    var t := TrimStart(s);
    var a := |s| - |t|;
    var b := a + |TrimEnd(t)|;
    assert Trim(s) == s[a..b] && s[b..] == t[|TrimEnd(t)|..];
  }

  /** Whitespace followed by text that does not start with whitespace trims to that text. */
  lemma TrimStartSkips(w: string, x: string)
    requires AllWhitespace(w)
    requires x == [] || !IsJsWhitespace(x[0])
    ensures TrimStart(w + x) == x
  {
    var s := w + x;
    assert forall k :: 0 <= k < |w| ==> s[k] == w[k];
    assert x != [] ==> s[|w|] == x[0];
    assert s[|w|..] == x;
  }

  /** Trimming the end of `x + y` keeps `x` when `x` ends in a character that is not whitespace. */
  lemma TrimEndKeeps(x: string, y: string)
    requires x != [] && !IsJsWhitespace(x[|x| - 1])
    ensures |x| <= |TrimEnd(x + y)| && TrimEnd(x + y)[..|x|] == x
  {
    var s := x + y;
    var n := BackWhitespace(s, |s|);
    assert s[|x| - 1] == x[|x| - 1];
    assert |x| <= n;
    assert s[..n][..|x|] == x;
  }

  // ---------------------------------------------------------------- split and join

  /** `s.split(sep)` for a one-character separator: never empty, and no piece holds `sep`. */
  function Split(s: string, sep: char): (parts: seq<string>)
    ensures |parts| >= 1
    ensures forall i :: 0 <= i < |parts| ==> sep !in parts[i]
  {
    if s == [] then [[]]
    else
      var rest := Split(s[1..], sep);
      if s[0] == sep then [[]] + rest else [[s[0]] + rest[0]] + rest[1..]
  }

  /** `parts.join(sep)`. */
  function Join(parts: seq<string>, sep: string): string {
    if parts == [] then []
    else if |parts| == 1 then parts[0]
    else parts[0] + sep + Join(parts[1..], sep)
  }

  /** Appending a part to a non-empty list appends the separator and the part. */
  lemma {:induction false} JoinSnoc(parts: seq<string>, x: string, sep: string)
    requires parts != []
    ensures Join(parts + [x], sep) == Join(parts, sep) + sep + x
  {
    if |parts| > 1 {
      JoinSnoc(parts[1..], x, sep);
      assert (parts + [x])[1..] == parts[1..] + [x];
    }
  }

  /** Joining the pieces of a split gives back the string. */
  lemma {:induction false} JoinSplit(s: string, sep: char)
    ensures Join(Split(s, sep), [sep]) == s
  {
    if s != [] {
      var rest := Split(s[1..], sep);
      JoinSplit(s[1..], sep);
      if s[0] == sep {
        assert Split(s, sep)[1..] == rest;
      } else if |rest| == 1 {
        assert Join(rest, [sep]) == rest[0];
      } else {
        var parts := Split(s, sep);
        assert parts[1..] == rest[1..];
        assert Join(rest, [sep]) == rest[0] + [sep] + Join(rest[1..], [sep]);
        assert [s[0]] + rest[0] + [sep] + Join(rest[1..], [sep]) == [s[0]] + Join(rest, [sep]);
      }
    }
  }

  lemma {:induction false} SplitWithout(x: string, sep: char)
    requires sep !in x
    ensures Split(x, sep) == [x]
  {
    if x != [] {
      SplitWithout(x[1..], sep);
      assert [x[0]] + x[1..] == x;
    }
  }

  lemma {:induction false} SplitAt(x: string, y: string, sep: char)
    requires sep !in x
    ensures Split(x + [sep] + y, sep) == [x] + Split(y, sep)
  {
    if x == [] {
      assert (x + [sep] + y)[1..] == y;
    } else {
      assert (x + [sep] + y)[1..] == x[1..] + [sep] + y;
      SplitAt(x[1..], y, sep);
      assert [x[0]] + x[1..] == x;
    }
  }

  /** Splitting a join of separator-free pieces gives back the pieces. */
  lemma {:induction false} SplitJoin(parts: seq<string>, sep: char)
    requires |parts| >= 1
    requires forall i :: 0 <= i < |parts| ==> sep !in parts[i]
    ensures Split(Join(parts, [sep]), sep) == parts
  {
    if |parts| == 1 {
      SplitWithout(parts[0], sep);
    } else {
      SplitJoin(parts[1..], sep);
      SplitAt(parts[0], Join(parts[1..], [sep]), sep);
      assert [parts[0]] + parts[1..] == parts;
    }
  }

  /** The first piece of a split starts with any separator-free prefix of the string. */
  lemma {:induction false} SplitHead(x: string, y: string, sep: char)
    requires sep !in x
    ensures |x| <= |Split(x + y, sep)[0]| && Split(x + y, sep)[0][..|x|] == x
  {
    if x != [] {
      assert (x + y)[1..] == x[1..] + y;
      SplitHead(x[1..], y, sep);
    }
  }

  // ---------------------------------------------------------------- searching

  /** `s` holds `sub` starting at index `i`, compared character by character. */
  predicate ContainsAt(s: string, i: nat, sub: string)
    decreases |sub|
  {
    if sub == [] then i <= |s|
    else i < |s| && s[i] == sub[0] && ContainsAt(s, i + 1, sub[1..])
  }

  /** Holding `sub` at `i` is the slice from `i` being `sub`. */
  lemma {:induction false} ContainsAtSlice(s: string, i: nat, sub: string)
    ensures ContainsAt(s, i, sub) <==> i + |sub| <= |s| && s[i..i + |sub|] == sub
    decreases |sub|
  {
    if sub != [] {
      ContainsAtSlice(s, i + 1, sub[1..]);
      if i + |sub| <= |s| {
        assert s[i..i + |sub|] == [s[i]] + s[i + 1..i + 1 + |sub[1..]|];
        assert sub == [sub[0]] + sub[1..];
      }
    }
  }

  /** `s.includes(sub)`. */
  predicate Contains(s: string, sub: string) {
    exists i: nat | i <= |s| :: ContainsAt(s, i, sub)
  }

  lemma ContainsInfix(a: string, sub: string, b: string)
    ensures Contains(a + sub + b, sub)
  {
    ContainsAtSlice(a + sub + b, |a|, sub);
    assert (a + sub + b)[|a|..|a| + |sub|] == sub;
  }

  /** The index of the first `c` at or after `i`, as `indexOf` reports it. */
  function FirstIndexFrom(s: string, i: nat, c: char): (r: Option<nat>)
    requires i <= |s|
    ensures r.Some? ==> i <= r.value < |s| && s[r.value] == c
    ensures r.Some? ==> forall k :: i <= k < r.value ==> s[k] != c
    ensures r.None? ==> forall k :: i <= k < |s| ==> s[k] != c
    decreases |s| - i
  {
    if i == |s| then None else if s[i] == c then Some(i) else FirstIndexFrom(s, i + 1, c)
  }

  /** A `c` at `k` with none before it from `i` on is the first one. */
  lemma FirstIndexIs(s: string, i: nat, c: char, k: nat)
    requires i <= k < |s| && s[k] == c
    requires forall m :: i <= m < k ==> s[m] != c
    ensures FirstIndexFrom(s, i, c) == Some(k)
  {
  }

  /** Holding a concatenation at `i` is holding its two parts one after the other. */
  lemma {:induction false} ContainsAtConcat(s: string, i: nat, x: string, y: string)
    ensures ContainsAt(s, i, x + y) <==> ContainsAt(s, i, x) && ContainsAt(s, i + |x|, y)
    decreases |x|
  {
    if x == [] {
      assert x + y == y;
      ContainsAtSlice(s, i, y);
    } else {
      assert (x + y)[0] == x[0] && (x + y)[1..] == x[1..] + y;
      ContainsAtConcat(s, i + 1, x[1..], y);
    }
  }

  /** The index of the first line terminator at or after `i`, or `|s|` when there is none. */
  function LineEndFrom(s: string, i: nat): (r: nat)
    requires i <= |s|
    ensures i <= r <= |s|
    ensures r < |s| ==> IsLineTerminator(s[r])
    ensures forall k :: i <= k < r ==> !IsLineTerminator(s[k])
    decreases |s| - i
  {
    if i == |s| || IsLineTerminator(s[i]) then i else LineEndFrom(s, i + 1)
  }

  // ---------------------------------------------------------------- case-insensitive matching

  /** Case folding of a regular expression with the `i` flag and no `u` flag: only ASCII
      letters fold onto ASCII letters, so folding them alone decides every comparison with
      an ASCII pattern character. */
  function LowerAscii(c: char): char {
    if 'A' <= c <= 'Z' then (c as int + 32) as char else c
  }

  predicate EqualsCI(a: string, b: string) {
    |a| == |b| && forall k :: 0 <= k < |a| ==> LowerAscii(a[k]) == LowerAscii(b[k])
  }

  /** The case-insensitive pattern `pat` matches `s` at index `i`. */
  predicate StartsWithCIAt(s: string, i: nat, pat: string) {
    i + |pat| <= |s| && EqualsCI(s[i..i + |pat|], pat)
  }

  /** A case-insensitive search for `pat` finds it somewhere in `s`. */
  predicate ContainsCI(s: string, pat: string) {
    exists i: nat | i <= |s| :: StartsWithCIAt(s, i, pat)
  }

  /** `s.replace(c, repl)` with a one-character search string: only the first `c` changes. */
  function ReplaceFirst(s: string, c: char, repl: string): (r: string)
    ensures FirstIndexFrom(s, 0, c).None? ==> r == s
    ensures FirstIndexFrom(s, 0, c).Some? ==>
      var i := FirstIndexFrom(s, 0, c).value; r == s[..i] + repl + s[i + 1..]
  {
    if s == [] then []
    else if s[0] == c then repl + s[1..]
    else
      var rest := ReplaceFirst(s[1..], c, repl);
      FirstIndexShift(s, c);
      [s[0]] + rest
  }

  lemma FirstIndexShift(s: string, c: char)
    requires s != [] && s[0] != c
    ensures FirstIndexFrom(s, 0, c).None? <==> FirstIndexFrom(s[1..], 0, c).None?
    ensures FirstIndexFrom(s, 0, c).Some? ==> FirstIndexFrom(s, 0, c).value == FirstIndexFrom(s[1..], 0, c).value + 1
  {
    var a, b := FirstIndexFrom(s, 0, c), FirstIndexFrom(s[1..], 0, c);
    if a.Some? {
      assert s[1..][a.value - 1] == c;
    }
    if b.Some? {
      assert s[b.value + 1] == c;
    }
  }
}
