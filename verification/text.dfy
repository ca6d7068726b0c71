/** Character classes and string helpers shared by every module: Python's notion
    of whitespace, `strip`, `split`, `splitlines`, `join`, and the case-insensitive
    character comparison a `str` regex performs under the IGNORECASE flag. */
module Text {

  type String = seq<char>

  /** `str.isspace()`, which is also what `\s` matches in a `str` regex. */
  predicate IsSpace(c: char) {
    || c == ' '
    || ('\t' <= c <= '\r')
    || ('\U{1C}' <= c <= '\U{1F}')
    || c == '\U{85}' || c == '\U{A0}' || c == '\U{1680}'
    || ('\U{2000}' <= c <= '\U{200A}')
    || c == '\U{2028}' || c == '\U{2029}' || c == '\U{202F}' || c == '\U{205F}' || c == '\U{3000}'
  }

  predicate AllSpace(s: String) {
    forall i :: 0 <= i < |s| ==> IsSpace(s[i])
  }

  /** A line boundary for `str.splitlines()` other than '\n'. */
  predicate IsOtherLineBreak(c: char) {
    || c == '\r' || c == '\U{0B}' || c == '\U{0C}'
    || c == '\U{1C}' || c == '\U{1D}' || c == '\U{1E}'
    || c == '\U{85}' || c == '\U{2028}' || c == '\U{2029}'
  }

  /** Text in which '\n' is the only line boundary. */
  predicate OnlyNewlineBreaks(s: String) {
    forall i :: 0 <= i < |s| ==> !IsOtherLineBreak(s[i])
  }

  predicate IsAsciiLetter(c: char) {
    'A' <= c <= 'Z' || 'a' <= c <= 'z'
  }

  predicate IsAsciiDigit(c: char) {
    '0' <= c <= '9'
  }

  predicate IsAscii(s: String) {
    forall i :: 0 <= i < |s| ==> s[i] < '\U{80}'
  }

  function AsciiLower(c: char): (d: char)
    ensures IsAsciiLetter(c) ==> 'a' <= d <= 'z'
    ensures !('A' <= c <= 'Z') ==> d == c
  {
    if 'A' <= c <= 'Z' then (c as int + 32) as char else c
  }

  /** Does pattern character `p` match text character `c` under IGNORECASE?
      For an ASCII letter this is its two cases plus the four non-ASCII letters
      whose simple case mapping reaches ASCII (dotted and dotless i, long s,
      Kelvin sign); every other pattern character matches only itself. */
  predicate FoldEq(p: char, c: char) {
    || p == c
    || (IsAsciiLetter(p) &&
         (|| AsciiLower(c) == AsciiLower(p)
          || (AsciiLower(p) == 'i' && (c == '\U{130}' || c == '\U{131}'))
          || (AsciiLower(p) == 's' && c == '\U{17F}')
          || (AsciiLower(p) == 'k' && c == '\U{212A}')))
  }

  /** `pat` occurs at position `i` of `s`, compared case-insensitively. */
  predicate FoldAt(s: String, pat: String, i: nat) {
    i + |pat| <= |s| && forall j :: 0 <= j < |pat| ==> FoldEq(pat[j], s[i + j])
  }

  /** `pat` occurs at position `i` of `s`, compared exactly. */
  predicate OccursAt(s: String, pat: String, i: nat) {
    i + |pat| <= |s| && s[i..i + |pat|] == pat
  }

  predicate Contains(s: String, pat: String) {
    exists i :: 0 <= i <= |s| && OccursAt(s, pat, i)
  }

  predicate StartsWith(s: String, pat: String) {
    OccursAt(s, pat, 0)
  }

  /** The first index at or after `from` holding `c`, or `|s|` when there is none. */
  function FindChar(s: String, c: char, from: nat): (j: nat)
    requires from <= |s|
    ensures from <= j <= |s|
    ensures j < |s| ==> s[j] == c
    ensures forall k :: from <= k < j ==> s[k] != c
    decreases |s| - from
  {
    if from == |s| || s[from] == c then from else FindChar(s, c, from + 1)
  }

  /** The end of the maximal run of whitespace starting at `from`. */
  function SpaceRunEnd(s: String, from: nat): (j: nat)
    requires from <= |s|
    ensures from <= j <= |s|
    ensures j < |s| ==> !IsSpace(s[j])
    ensures forall k :: from <= k < j ==> IsSpace(s[k])
    decreases |s| - from
  {
    if from == |s| || !IsSpace(s[from]) then from else SpaceRunEnd(s, from + 1)
  }

  /** `str.lstrip()`. */
  function TrimStart(s: String): (r: String)
    ensures |r| <= |s| && r == s[|s| - |r|..]
    ensures AllSpace(s[..|s| - |r|])
    ensures r == [] || !IsSpace(r[0])
  {
    if |s| > 0 && IsSpace(s[0]) then
      var r := TrimStart(s[1..]);
      assert s[..|s| - |r|] == [s[0]] + s[1..][..|s[1..]| - |r|];
      r
    else s
  }

  /** `str.rstrip()`. */
  function TrimEnd(s: String): (r: String)
    ensures |r| <= |s| && r == s[..|r|]
    ensures AllSpace(s[|r|..])
    ensures r == [] || !IsSpace(r[|r| - 1])
  {
    if |s| > 0 && IsSpace(s[|s| - 1]) then
      var r := TrimEnd(s[..|s| - 1]);
      assert s[|r|..] == s[..|s| - 1][|r|..] + [s[|s| - 1]];
      r
    else s
  }

  /** No whitespace at either end. */
  predicate Stripped(s: String) {
    s == [] || (!IsSpace(s[0]) && !IsSpace(s[|s| - 1]))
  }

  /** `str.strip()`. */
  function Strip(s: String): (r: String)
    ensures Stripped(r)
  {
    TrimEnd(TrimStart(s))
  }

  /** Where the stripped text starts in `s`. */
  function StripStart(s: String): nat
  {
    |s| - |TrimStart(s)|
  }

  /** `strip` cuts whitespace only: the result is the piece of `s` at
      `StripStart(s)`, with nothing but whitespace before and after it. */
  lemma StripShape(s: String)
    ensures Framed(s, StripStart(s), Strip(s))
  {
    var a := TrimStart(s);
    StripSlice(s, a, TrimEnd(a));
  }

  /** `r` sits at `i` in `s` with only whitespace around it. */
  predicate Framed(s: String, i: nat, r: String) {
    i + |r| <= |s| && s[i..i + |r|] == r && AllSpace(s[..i]) && AllSpace(s[i + |r|..])
  }

  lemma StripSlice(s: String, a: String, r: String)
    requires |a| <= |s| && a == s[|s| - |a|..] && AllSpace(s[..|s| - |a|])
    requires |r| <= |a| && r == a[..|r|] && AllSpace(a[|r|..])
    ensures Framed(s, |s| - |a|, r)
  {
    var i := |s| - |a|;
    assert s[i + |r|..] == a[|r|..];
  }

  /** Stripping a string with no whitespace at either end changes nothing. */
  lemma StripStripped(s: String)
    requires Stripped(s)
    ensures Strip(s) == s
  {
  }

  /** Text that starts with no whitespace loses only a whitespace tail. */
  lemma StripFromWord(s: String)
    requires s == [] || !IsSpace(s[0])
    ensures |Strip(s)| <= |s| && s == Strip(s) + s[|Strip(s)|..] && AllSpace(s[|Strip(s)|..])
  {
    var r := TrimEnd(s);
    assert TrimStart(s) == s;
    assert s == r + s[|r|..];
  }

  /** `strip` empties exactly the strings made of whitespace only. */
  lemma StripEmpty(s: String)
    ensures Strip(s) == [] <==> AllSpace(s)
  {
    var i := StripStart(s);
    StripShape(s);
    if Strip(s) == [] {
      assert s == s[..i] + s[i..];
    }
  }

  /** `sep.join(xs)`. */
  function Join(xs: seq<String>, sep: String): String
  {
    if |xs| == 0 then [] else if |xs| == 1 then xs[0] else xs[0] + sep + Join(xs[1..], sep)
  }

  predicate NoChar(s: String, c: char) {
    forall i :: 0 <= i < |s| ==> s[i] != c
  }

  /** `s.split(d)` for a one-character separator: never empty, no piece holds
      the separator, and joining the pieces gives back `s`. */
  function Split(s: String, d: char): (r: seq<String>)
    ensures |r| >= 1
    ensures forall k :: 0 <= k < |r| ==> NoChar(r[k], d)
    ensures Join(r, [d]) == s
    decreases |s|
  {
    var i := FindChar(s, d, 0);
    if i == |s| then
      assert s[..i] == s;
      [s]
    else
      var rest := Split(s[i + 1..], d);
      assert s == s[..i] + [d] + s[i + 1..];
      [s[..i]] + rest
  }

  /** Splitting a join gives back the pieces when none of them holds the separator. */
  lemma {:induction false} SplitJoin(xs: seq<String>, d: char)
    requires |xs| >= 1
    requires forall k :: 0 <= k < |xs| ==> NoChar(xs[k], d)
    ensures Split(Join(xs, [d]), d) == xs
    decreases |xs|
  {
    var s := Join(xs, [d]);
    if |xs| == 1 {
      assert FindChar(s, d, 0) == |s|;
    } else {
      assert s == xs[0] + [d] + Join(xs[1..], [d]);
      var i := FindChar(s, d, 0);
      assert s[|xs[0]|] == d;
      assert i == |xs[0]|;
      assert s[i + 1..] == Join(xs[1..], [d]);
      SplitJoin(xs[1..], d);
      assert s[..i] == xs[0];
    }
  }

  /** Splitting at a separator put between two texts splits each of them. */
  lemma {:induction false} SplitAround(a: String, b: String, d: char)
    ensures Split(a + [d] + b, d) == Split(a, d) + Split(b, d)
    decreases |a|
  {
    var s := a + [d] + b;
    var i := FindChar(a, d, 0);
    FindCharBefore(a, [d] + b, d);
    assert s == a + ([d] + b);
    if i == |a| {
      SplitAroundLast(a, b, d);
    } else {
      assert s[..i] == a[..i];
      assert s[i + 1..] == a[i + 1..] + [d] + b;
      SplitAround(a[i + 1..], b, d);
    }
  }

  lemma SplitAroundLast(a: String, b: String, d: char)
    requires FindChar(a, d, 0) == |a| && FindChar(a + ([d] + b), d, 0) == |a|
    ensures Split(a + [d] + b, d) == [a] + Split(b, d)
  {
    var s := a + [d] + b;
    assert s == a + ([d] + b);
    assert s[..|a|] == a && s[|a| + 1..] == b;
  }

  /** A separator at the start of `y` is found no later than `|a|` in `a + y`. */
  lemma FindCharBefore(a: String, y: String, d: char)
    requires y != [] && y[0] == d
    ensures FindChar(a + y, d, 0) == FindChar(a, d, 0)
  {
    var i := FindChar(a, d, 0);
    assert (a + y)[i] == d;
  }

  /** The last piece of a split is empty exactly when the text is empty or
      ends with the separator. */
  lemma SplitLast(s: String, d: char)
    ensures var p := Split(s, d);
            p[|p| - 1] == [] <==> (s == [] || s[|s| - 1] == d)
  {
    var p := Split(s, d);
    var last := p[|p| - 1];
    if |p| > 1 {
      assert p == p[..|p| - 1] + [last];
      JoinSnoc(p[..|p| - 1], last, [d]);
      assert s == Join(p[..|p| - 1], [d]) + [d] + last;
      if last != [] {
        assert s[|s| - 1] == last[|last| - 1];
      }
    }
  }

  /** A line boundary for `str.splitlines()`. */
  predicate IsLineBreak(c: char) {
    c == '\n' || IsOtherLineBreak(c)
  }

  predicate NoBreak(s: String) {
    forall i :: 0 <= i < |s| ==> !IsLineBreak(s[i])
  }

  /** The first index at or after `from` holding a line boundary, or `|s|`. */
  function BreakIndex(s: String, from: nat): (j: nat)
    requires from <= |s|
    ensures from <= j <= |s|
    ensures j < |s| ==> IsLineBreak(s[j])
    ensures forall k :: from <= k < j ==> !IsLineBreak(s[k])
    decreases |s| - from
  {
    if from == |s| || IsLineBreak(s[from]) then from else BreakIndex(s, from + 1)
  }

  /** `s.splitlines()`: no lines for the empty text, every boundary ends a
      line ("\r\n" counting as one), and no empty line follows a final
      boundary. */
  function Lines(s: String): (r: seq<String>)
    ensures forall k :: 0 <= k < |r| ==> NoBreak(r[k])
    ensures s == [] <==> r == []
    decreases |s|
  {
    if s == [] then []
    else
      var i := BreakIndex(s, 0);
      if i == |s| then
        assert s[..i] == s;
        [s]
      else
        var w := if s[i] == '\r' && i + 1 < |s| && s[i + 1] == '\n' then 2 else 1;
        [s[..i]] + Lines(s[i + w..])
  }

  /** A split with a final empty piece dropped. */
  function DropEmptyLast(p: seq<String>): seq<String>
  {
    if |p| > 0 && p[|p| - 1] == [] then p[..|p| - 1] else p
  }

  /** On text whose only boundary is '\n', `splitlines` is `split('\n')`
      without a final empty piece. */
  lemma {:induction false} LinesAsSplit(s: String)
    requires OnlyNewlineBreaks(s) && s != []
    ensures Lines(s) == DropEmptyLast(Split(s, '\n'))
    decreases |s|
  {
    var i := BreakIndex(s, 0);
    var f := FindChar(s, '\n', 0);
    assert i == f by {
      if f < i { assert IsLineBreak(s[f]); }
    }
    if i == |s| {
      assert Lines(s) == [s];
      assert Split(s, '\n') == [s];
    } else {
      var rest := s[i + 1..];
      var x := s[..i];
      assert Lines(s) == [x] + Lines(rest);
      var p := Split(rest, '\n');
      assert Split(s, '\n') == [x] + p;
      if rest == [] {
        assert p == [[]];
        assert DropEmptyLast([x] + p) == [x];
      } else {
        assert OnlyNewlineBreaks(rest) by {
          forall k | 0 <= k < |rest| ensures !IsOtherLineBreak(rest[k]) { assert rest[k] == s[i + 1 + k]; }
        }
        LinesAsSplit(rest);
        DropEmptyLastCons(x, p);
      }
    }
  }

  lemma DropEmptyLastCons(x: String, p: seq<String>)
    requires |p| > 0
    ensures DropEmptyLast([x] + p) == [x] + DropEmptyLast(p)
  {
    assert ([x] + p)[|p|] == p[|p| - 1];
    if p[|p| - 1] == [] {
      assert ([x] + p)[..|p|] == [x] + p[..|p| - 1];
    }
  }

  /** Text without any boundary splits into itself. */
  lemma LinesOfLine(s: String)
    requires s != [] && NoBreak(s)
    ensures Lines(s) == [s]
  {
  }

  /** Text without the separator splits into itself. */
  lemma SplitNoSep(s: String, d: char)
    requires NoChar(s, d)
    ensures Split(s, d) == [s]
  {
    assert s[..|s|] == s;
  }

  lemma JoinSnoc(xs: seq<String>, x: String, sep: String)
    requires |xs| >= 1
    ensures Join(xs + [x], sep) == Join(xs, sep) + sep + x
    decreases |xs|
  {
    if |xs| == 1 {
      assert Join(xs + [x], sep) == xs[0] + sep + Join([x], sep);
    } else {
      assert (xs + [x])[1..] == xs[1..] + [x];
      JoinSnoc(xs[1..], x, sep);
    }
  }

  /** Joining `splitlines()` with '\n' gives the text back exactly when it does
      not end with a newline, for text whose only boundary is '\n'. */
  lemma JoinLines(s: String)
    requires OnlyNewlineBreaks(s)
    ensures Join(Lines(s), "\n") == s <==> (s == [] || s[|s| - 1] != '\n')
  {
    if s != [] {
      LinesAsSplit(s);
      JoinSplitDropped(s);
    }
  }

  lemma JoinSplitDropped(s: String)
    requires s != []
    ensures Join(DropEmptyLast(Split(s, '\n')), "\n") == s <==> s[|s| - 1] != '\n'
  {
    if s[|s| - 1] == '\n' {
      JoinSplitNewline(s);
    } else {
      JoinSplitKept(s);
    }
  }

  lemma JoinSplitKept(s: String)
    requires s != [] && s[|s| - 1] != '\n'
    ensures Join(DropEmptyLast(Split(s, '\n')), "\n") == s
  {
    var p := Split(s, '\n');
    SplitLast(s, '\n');
    assert DropEmptyLast(p) == p;
  }

  lemma JoinSplitNewline(s: String)
    requires s != [] && s[|s| - 1] == '\n'
    ensures Join(DropEmptyLast(Split(s, '\n')), "\n") != s
  {
    SplitLast(s, '\n');
    JoinDroppedShorter(s);
  }

  lemma JoinDroppedShorter(s: String)
    requires var p := Split(s, '\n'); p[|p| - 1] == [] && s != []
    ensures Join(DropEmptyLast(Split(s, '\n')), "\n") != s
  {
    var p := Split(s, '\n');
    var q := p[..|p| - 1];
    assert |p| > 1;
    assert p == q + [[]];
    JoinSnoc(q, [], "\n");
  }
}
