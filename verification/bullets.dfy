/** The bullet extractor and bullet splicer of `bullet_utils.py`.

    A bullet line is what `^[\t ]*(?:[-\*•])\s+.*` matches at the start of
    a line: optional tabs and spaces, one marker glyph, at least one
    whitespace character, then anything. The splicer replaces bullet lines by
    position and appends surplus replacements at the end. */
module Bullets {
  import opened Text

  /** The marker glyphs: hyphen, asterisk and U+2022 BULLET. */
  predicate IsMarker(c: char) {
    c == '-' || c == '*' || c == '\U{2022}'
  }

  predicate IsIndent(c: char) {
    c == '\t' || c == ' '
  }

  /** The end of the leading run of tabs and spaces (`[\t ]*`). */
  function IndentEnd(l: String): (k: nat)
    ensures k <= |l|
    ensures forall j :: 0 <= j < k ==> IsIndent(l[j])
    ensures k < |l| ==> !IsIndent(l[k])
  {
    if |l| > 0 && IsIndent(l[0]) then 1 + IndentEnd(l[1..]) else 0
  }

  /** The per-line bullet pattern. */
  predicate IsBulletLine(l: String) {
    var k := IndentEnd(l);
    k + 1 < |l| && IsMarker(l[k]) && IsSpace(l[k + 1])
  }

  /** `l[..k]` is tabs and spaces only. */
  predicate IndentedTo(l: String, k: nat) {
    k <= |l| && forall j :: 0 <= j < k ==> IsIndent(l[j])
  }

  /** The bullet pattern, read as the regex reads it: some run of tabs and
      spaces, a marker, then whitespace. A marker anywhere else on the line
      does not make it a bullet. */
  lemma BulletLineShape(l: String)
    ensures IsBulletLine(l) <==>
      exists k: nat :: k + 1 < |l| && IndentedTo(l, k) && IsMarker(l[k]) && IsSpace(l[k + 1])
  {
    var e := IndentEnd(l);
    if IsBulletLine(l) {
      assert IndentedTo(l, e);
    } else {
      forall k: nat | k + 1 < |l| && IndentedTo(l, k) && IsMarker(l[k])
        ensures !IsSpace(l[k + 1])
      {
      }
    }
  }

  /** Number of bullet lines in `ls`. */
  function CountBullets(ls: seq<String>): nat
  {
    if ls == [] then 0 else (if IsBulletLine(ls[0]) then 1 else 0) + CountBullets(ls[1..])
  }

  lemma {:induction false} CountAppend(a: seq<String>, b: seq<String>)
    ensures CountBullets(a + b) == CountBullets(a) + CountBullets(b)
    decreases |a|
  {
    if a != [] {
      assert (a + b)[0] == a[0];
      assert (a + b)[1..] == a[1..] + b;
      CountAppend(a[1..], b);
    } else {
      assert a + b == b;
    }
  }

  /** How many bullet lines come before line `i`. */
  function Rank(ls: seq<String>, i: nat): nat
    requires i <= |ls|
  {
    CountBullets(ls[..i])
  }

  lemma RankStep(ls: seq<String>, i: nat)
    requires 0 < i <= |ls|
    ensures Rank(ls, i) == (if IsBulletLine(ls[0]) then 1 else 0) + Rank(ls[1..], i - 1)
  {
    assert ls[..i][1..] == ls[1..][..i - 1];
  }

  /** The bullet lines of `ls`, in order. */
  function BulletsOf(ls: seq<String>): (r: seq<String>)
    ensures |r| == CountBullets(ls)
    ensures forall j :: 0 <= j < |r| ==> IsBulletLine(r[j])
  {
    if ls == [] then []
    else (if IsBulletLine(ls[0]) then [ls[0]] else []) + BulletsOf(ls[1..])
  }

  /** The `Rank`-th bullet is the bullet line itself: the bullets come in
      document order and none is skipped. */
  lemma {:induction false} BulletsOfRank(ls: seq<String>, i: nat)
    requires i < |ls| && IsBulletLine(ls[i])
    ensures Rank(ls, i) < |BulletsOf(ls)| && BulletsOf(ls)[Rank(ls, i)] == ls[i]
    decreases |ls|
  {
    if i > 0 {
      RankStep(ls, i);
      assert ls[1..][i - 1] == ls[i];
      BulletsOfRank(ls[1..], i - 1);
    }
  }

  /** A line that `findall` would read across the following newline: a marker
      followed by nothing but whitespace, since `\s+` also matches '\n'. */
  predicate DanglingMarker(l: String) {
    var k := IndentEnd(l);
    k < |l| && IsMarker(l[k]) && AllSpace(l[k + 1..])
  }

  /** No line except the last is a dangling marker, so `findall` and the
      per-line pattern agree. */
  predicate NoDanglingMarker(text: String) {
    var ps := Split(text, '\n');
    forall i :: 0 <= i < |ps| - 1 ==> !DanglingMarker(ps[i])
  }

  /** `extract_bullets`: the bullet lines of the text, in document order. */
  function ExtractBullets(text: String): (r: seq<String>)
    requires NoDanglingMarker(text)
    ensures var ls := Split(text, '\n');
            && |r| == CountBullets(ls)
            && forall i :: 0 <= i < |ls| && IsBulletLine(ls[i]) ==> Rank(ls, i) < |r| && r[Rank(ls, i)] == ls[i]
    ensures forall j :: 0 <= j < |r| ==> IsBulletLine(r[j]) && NoChar(r[j], '\n')
  {
    var ls := Split(text, '\n');
    var r := BulletsOf(ls);
    forall i | 0 <= i < |ls| && IsBulletLine(ls[i])
      ensures Rank(ls, i) < |r| && r[Rank(ls, i)] == ls[i]
    {
      BulletsOfRank(ls, i);
    }
    assert forall j :: 0 <= j < |r| ==> NoChar(r[j], '\n') by {
      forall j | 0 <= j < |r|
        ensures NoChar(r[j], '\n')
      {
        BulletsAreLines(ls, j);
      }
    }
    r
  }

  lemma {:induction false} BulletsAreLines(ls: seq<String>, j: nat)
    requires j < |BulletsOf(ls)|
    ensures BulletsOf(ls)[j] in ls
    decreases |ls|
  {
    if IsBulletLine(ls[0]) {
      if j > 0 { BulletsAreLines(ls[1..], j - 1); }
    } else {
      BulletsAreLines(ls[1..], j);
    }
  }

  /** The `for` loop of `replace_bullets` from replacement index `bi` on: a
      bullet line takes the next replacement while there is one, and every
      other line is kept. */
  function SpliceLoop(ls: seq<String>, news: seq<String>, bi: nat): (out: seq<String>)
    requires bi <= |news|
    ensures |out| == |ls|
    decreases |ls|
  {
    if ls == [] then []
    else if IsBulletLine(ls[0]) && bi < |news| then [news[bi]] + SpliceLoop(ls[1..], news, bi + 1)
    else [ls[0]] + SpliceLoop(ls[1..], news, bi)
  }

  /** The replacement index `bi` once the `for` loop has run over `ls`. */
  function Consumed(ls: seq<String>, news: seq<String>, bi: nat): (c: nat)
    requires bi <= |news|
    ensures bi <= c <= |news|
    decreases |ls|
  {
    if ls == [] then bi
    else if IsBulletLine(ls[0]) && bi < |news| then Consumed(ls[1..], news, bi + 1)
    else Consumed(ls[1..], news, bi)
  }

  /** The loop uses one replacement per bullet line until they run out. */
  lemma {:induction false} ConsumedCount(ls: seq<String>, news: seq<String>, bi: nat)
    requires bi <= |news|
    ensures Consumed(ls, news, bi) == if bi + CountBullets(ls) < |news| then bi + CountBullets(ls) else |news|
    decreases |ls|
  {
    if ls != [] {
      if IsBulletLine(ls[0]) && bi < |news| {
        ConsumedCount(ls[1..], news, bi + 1);
      } else {
        ConsumedCount(ls[1..], news, bi);
      }
    }
  }

  /** Both loops of `replace_bullets` over the lines `ls`: the `for` loop,
      then the `while` loop appending the replacements left over. */
  function Splice(ls: seq<String>, news: seq<String>): seq<String>
  {
    SpliceLoop(ls, news, 0) + news[Consumed(ls, news, 0)..]
  }

  /** Line `i` of the loop's output is replacement `bi + Rank(ls, i)` when
      line `i` is a bullet line and that replacement exists, and line `i`
      itself otherwise: non-bullet lines and bullet lines beyond the
      replacements are kept. */
  lemma {:induction false} SpliceLine(ls: seq<String>, news: seq<String>, bi: nat, i: nat)
    requires bi <= |news| && i < |ls|
    ensures SpliceLoop(ls, news, bi)[i] ==
            (if IsBulletLine(ls[i]) && bi + Rank(ls, i) < |news| then news[bi + Rank(ls, i)] else ls[i])
    decreases |ls|
  {
    if i > 0 {
      RankStep(ls, i);
      assert ls[1..][i - 1] == ls[i];
      var next := if IsBulletLine(ls[0]) && bi < |news| then bi + 1 else bi;
      var rest := SpliceLoop(ls[1..], news, next);
      assert SpliceLoop(ls, news, bi) == [SpliceLoop(ls, news, bi)[0]] + rest;
      SpliceLine(ls[1..], news, next, i - 1);
    }
  }

  /** One output line per input line, then the `k - n` replacements beyond
      the `n` bullet lines, in order. */
  lemma SpliceShape(ls: seq<String>, news: seq<String>)
    ensures var n := CountBullets(ls);
            && |Splice(ls, news)| == |ls| + (if |news| > n then |news| - n else 0)
            && Splice(ls, news)[|ls|..] == news[if n < |news| then n else |news|..]
  {
    ConsumedCount(ls, news, 0);
    AppendDrop(SpliceLoop(ls, news, 0), news[Consumed(ls, news, 0)..]);
  }

  lemma AppendDrop<T>(a: seq<T>, b: seq<T>)
    ensures (a + b)[|a|..] == b
  {
  }

  /** `replace_bullets`: the splice over `splitlines()`, joined with '\n'. */
  function ReplaceBullets(section: String, news: seq<String>): String
  {
    Join(Splice(Lines(section), news), "\n")
  }

  /** Giving each bullet line back to itself changes no line. */
  lemma SpliceOwnBullets(ls: seq<String>)
    ensures Splice(ls, BulletsOf(ls)) == ls
  {
    var b := BulletsOf(ls);
    var out := SpliceLoop(ls, b, 0);
    forall i | 0 <= i < |ls|
      ensures out[i] == ls[i]
    {
      SpliceLine(ls, b, 0, i);
      if IsBulletLine(ls[i]) { BulletsOfRank(ls, i); }
    }
    ConsumedCount(ls, b, 0);
    assert b[Consumed(ls, b, 0)..] == [];
  }

  /** Reading the bullets of a spliced body gives the replacements first and
      then the old bullets that had no replacement. */
  lemma BulletsOfSplice(ls: seq<String>, news: seq<String>)
    requires forall j :: 0 <= j < |news| ==> IsBulletLine(news[j])
    ensures BulletsOf(Splice(ls, news)) == news + Unreplaced(ls, |news|)
  {
    var c := Consumed(ls, news, 0);
    var u := Unreplaced(ls, |news|);
    var loop := SpliceLoop(ls, news, 0);
    BulletsOfLoop(ls, news, 0);
    BulletsOfAppend(loop, news[c..]);
    BulletsOfAllBullets(news[c..]);
    assert BulletsOf(Splice(ls, news)) == (news[0..c] + u) + news[c..];
    LeftoverOnlyWhenUsedUp(ls, news);
    MergeTail(news, c, u);
  }

  lemma MergeTail<T>(xs: seq<T>, c: nat, u: seq<T>)
    requires c <= |xs| && (u == [] || c == |xs|)
    ensures (xs[0..c] + u) + xs[c..] == xs + u
  {
    if u == [] {
      assert xs[0..c] + xs[c..] == xs;
    }
  }

  /** Old bullets are left over only when every replacement has been used. */
  lemma LeftoverOnlyWhenUsedUp(ls: seq<String>, news: seq<String>)
    ensures Unreplaced(ls, |news|) == [] || Consumed(ls, news, 0) == |news|
  {
    ConsumedCount(ls, news, 0);
    UnreplacedIsDrop(ls, |news|);
  }

  /** The bullets of the loop's output: the replacements it used, then the
      old bullets it kept. */
  lemma {:induction false} BulletsOfLoop(ls: seq<String>, news: seq<String>, bi: nat)
    requires bi <= |news|
    requires forall j :: bi <= j < |news| ==> IsBulletLine(news[j])
    ensures BulletsOf(SpliceLoop(ls, news, bi)) == news[bi..Consumed(ls, news, bi)] + Unreplaced(ls, |news| - bi)
    decreases |ls|
  {
    if ls == [] {
    } else if IsBulletLine(ls[0]) && bi < |news| {
      BulletsOfLoop(ls[1..], news, bi + 1);
      LoopTakeStep(ls, news, bi);
    } else {
      BulletsOfLoop(ls[1..], news, bi);
      LoopKeepStep(ls, news, bi);
    }
  }

  lemma LoopTakeStep(ls: seq<String>, news: seq<String>, bi: nat)
    requires ls != [] && IsBulletLine(ls[0]) && bi < |news| && IsBulletLine(news[bi])
    requires BulletsOf(SpliceLoop(ls[1..], news, bi + 1))
          == news[bi + 1..Consumed(ls[1..], news, bi + 1)] + Unreplaced(ls[1..], |news| - bi - 1)
    ensures BulletsOf(SpliceLoop(ls, news, bi)) == news[bi..Consumed(ls, news, bi)] + Unreplaced(ls, |news| - bi)
  {
    var rest := SpliceLoop(ls[1..], news, bi + 1);
    var c := Consumed(ls[1..], news, bi + 1);
    var u := Unreplaced(ls[1..], |news| - bi - 1);
    assert SpliceLoop(ls, news, bi) == [news[bi]] + rest;
    BulletsOfCons(news[bi], rest);
    assert Consumed(ls, news, bi) == c;
    assert Unreplaced(ls, |news| - bi) == u;
    ConsAppend(news[bi], news[bi + 1..c], u, news[bi..c]);
  }

  lemma LoopKeepStep(ls: seq<String>, news: seq<String>, bi: nat)
    requires ls != [] && bi <= |news| && !(IsBulletLine(ls[0]) && bi < |news|)
    requires BulletsOf(SpliceLoop(ls[1..], news, bi))
          == news[bi..Consumed(ls[1..], news, bi)] + Unreplaced(ls[1..], |news| - bi)
    ensures BulletsOf(SpliceLoop(ls, news, bi)) == news[bi..Consumed(ls, news, bi)] + Unreplaced(ls, |news| - bi)
  {
    var rest := SpliceLoop(ls[1..], news, bi);
    assert SpliceLoop(ls, news, bi) == [ls[0]] + rest;
    assert Consumed(ls, news, bi) == Consumed(ls[1..], news, bi);
    BulletsOfCons(ls[0], rest);
    if IsBulletLine(ls[0]) {
      LoopKeepBullet(ls, news, bi);
    } else {
      assert Unreplaced(ls, |news| - bi) == Unreplaced(ls[1..], |news| - bi);
    }
  }

  /** A bullet line kept because the replacements have run out. */
  lemma LoopKeepBullet(ls: seq<String>, news: seq<String>, bi: nat)
    requires ls != [] && bi == |news| && IsBulletLine(ls[0])
    requires BulletsOf(SpliceLoop(ls[1..], news, bi)) == Unreplaced(ls[1..], 0)
    requires BulletsOf(SpliceLoop(ls, news, bi)) == [ls[0]] + BulletsOf(SpliceLoop(ls[1..], news, bi))
    ensures BulletsOf(SpliceLoop(ls, news, bi)) == Unreplaced(ls, 0)
  {
  }

  lemma ConcatAssoc<T>(a: seq<T>, b: seq<T>, c: seq<T>)
    ensures a + (b + c) == (a + b) + c
  {
  }

  lemma ConsAppend<T>(x: T, a: seq<T>, b: seq<T>, c: seq<T>)
    requires c == [x] + a
    ensures [x] + (a + b) == c + b
  {
  }

  /** The old bullets left without a replacement when `m` replacements are
      given: the first `m` bullet lines are skipped. */
  function Unreplaced(ls: seq<String>, m: nat): seq<String>
    decreases |ls|
  {
    if ls == [] then []
    else if !IsBulletLine(ls[0]) then Unreplaced(ls[1..], m)
    else if m > 0 then Unreplaced(ls[1..], m - 1)
    else [ls[0]] + Unreplaced(ls[1..], 0)
  }

  /** The unreplaced bullets are the bullets of `ls` after the first `m`. */
  lemma {:induction false} UnreplacedIsDrop(ls: seq<String>, m: nat)
    ensures Unreplaced(ls, m) == (if m < |BulletsOf(ls)| then BulletsOf(ls)[m..] else [])
    decreases |ls|
  {
    if ls != [] {
      assert ls == [ls[0]] + ls[1..];
      BulletsOfCons(ls[0], ls[1..]);
      if !IsBulletLine(ls[0]) {
        UnreplacedIsDrop(ls[1..], m);
      } else if m > 0 {
        UnreplacedIsDrop(ls[1..], m - 1);
      } else {
        UnreplacedIsDrop(ls[1..], 0);
      }
    }
  }

  lemma {:induction false} BulletsOfAppend(a: seq<String>, b: seq<String>)
    ensures BulletsOf(a + b) == BulletsOf(a) + BulletsOf(b)
    decreases |a|
  {
    if a == [] {
      assert a + b == b;
    } else {
      var h := if IsBulletLine(a[0]) then [a[0]] else [];
      assert a + b == [a[0]] + (a[1..] + b);
      BulletsOfCons(a[0], a[1..] + b);
      BulletsOfAppend(a[1..], b);
      assert a == [a[0]] + a[1..];
      BulletsOfCons(a[0], a[1..]);
      ConcatAssoc(h, BulletsOf(a[1..]), BulletsOf(b));
    }
  }

  lemma BulletsOfCons(x: String, xs: seq<String>)
    ensures BulletsOf([x] + xs) == (if IsBulletLine(x) then [x] else []) + BulletsOf(xs)
  {
    assert ([x] + xs)[1..] == xs;
  }

  lemma {:induction false} BulletsOfAllBullets(xs: seq<String>)
    requires forall j :: 0 <= j < |xs| ==> IsBulletLine(xs[j])
    ensures BulletsOf(xs) == xs
    decreases |xs|
  {
    if xs != [] {
      BulletsOfAllBullets(xs[1..]);
      assert xs == [xs[0]] + xs[1..];
    }
  }

  /** `replace_bullets` with the section's own bullets returns the section,
      unless a trailing newline is dropped by `splitlines`. */
  lemma ReplaceOwnBullets(section: String)
    requires OnlyNewlineBreaks(section) && NoDanglingMarker(section)
    requires section == [] || section[|section| - 1] != '\n'
    ensures ReplaceBullets(section, ExtractBullets(section)) == section
  {
    var ls := Lines(section);
    if section == [] {
      assert Split(section, '\n') == [[]];
      assert ExtractBullets(section) == [];
    } else {
      LinesNoFinalNewline(section);
      SpliceOwnBullets(ls);
    }
    JoinLines(section);
  }

  /** Without a final newline, `splitlines` and `split('\n')` agree. */
  lemma LinesNoFinalNewline(section: String)
    requires OnlyNewlineBreaks(section)
    requires section != [] && section[|section| - 1] != '\n'
    ensures Lines(section) == Split(section, '\n')
  {
    SplitLast(section, '\n');
    LinesAsSplit(section);
  }
}
