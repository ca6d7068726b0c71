/** The section locator and section splicer of `bullet_utils.py`.

    Both use the pattern
        (?mi)(?P<header>NAME\s*\n)(?P<body>.*?)(?=\n[A-Z][A-Z ]+\n|\Z)
    with NAME the escaped section name. Without DOTALL the lazy body cannot
    cross a newline, and the lookahead needs a newline or the end of the text
    right after the body, so a body is always the rest of ONE line. The
    pattern is restated here as the predicate `IsMatch`, and the search
    that Python's backtracking engine performs (leftmost start, then the
    longest `\s*` first) is modelled operationally and proved to pick the
    leftmost start and, there, the greatest header end. */
module Sections {
  import opened Text
  import opened Options

  /** A match: the header is `t[start..bodyStart]`, the body `t[bodyStart..end]`. */
  datatype Span = Span(start: nat, bodyStart: nat, end: nat)

  /** `[A-Z]` under IGNORECASE: the 52 ASCII letters and four more letters
      whose case mapping reaches ASCII. */
  predicate IsHeadingLetter(c: char) {
    IsAsciiLetter(c) || c == '\U{130}' || c == '\U{131}' || c == '\U{17F}' || c == '\U{212A}'
  }

  /** The first alternative of the lookahead, `\n[A-Z][A-Z ]+\n`, at `q`: a
      newline, then a line of at least two characters made of a letter
      followed by letters and spaces, then a newline. */
  predicate HeadingLineAt(t: String, q: nat) {
    && q + 1 < |t| && t[q] == '\n' && IsHeadingLetter(t[q + 1])
    && var e := FindChar(t, '\n', q + 1);
       && e < |t| && q + 3 <= e
       && forall j :: q + 2 <= j < e ==> IsHeadingLetter(t[j]) || t[j] == ' '
  }

  /** The lookahead `(?=\n[A-Z][A-Z ]+\n|\Z)` at `q`. */
  predicate BodyEndsAt(t: String, q: nat) {
    q == |t| || HeadingLineAt(t, q)
  }

  /** The whole pattern matches at `p` with header `t[p..h]` and body `t[h..q]`. */
  predicate IsMatch(t: String, name: String, p: nat, h: nat, q: nat) {
    && FoldAt(t, name, p)
    && p + |name| < h <= q <= |t|
    && (forall j :: p + |name| <= j < h ==> IsSpace(t[j]))
    && t[h - 1] == '\n'
    && (forall j :: h <= j < q ==> t[j] != '\n')
    && BodyEndsAt(t, q)
  }

  /** The match `re.search` reports when scanning from `from`: no match starts
      earlier, and at its start no longer header matches. */
  ghost predicate IsFirstMatch(t: String, name: String, from: nat, s: Span) {
    && from <= s.start
    && IsMatch(t, name, s.start, s.bodyStart, s.end)
    && (forall p: nat, h: nat, q: nat :: from <= p < s.start ==> !IsMatch(t, name, p, h, q))
    && (forall h: nat, q: nat :: IsMatch(t, name, s.start, h, q) ==> h <= s.bodyStart)
  }

  ghost predicate NoMatchFrom(t: String, name: String, from: nat) {
    forall p: nat, h: nat, q: nat :: from <= p ==> !IsMatch(t, name, p, h, q)
  }

  /** The lazy body can only stop at the end of its line. */
  lemma BodyIsRestOfLine(t: String, name: String, p: nat, h: nat, q: nat)
    requires IsMatch(t, name, p, h, q)
    ensures q == FindChar(t, '\n', h)
  {
  }

  /** A header end `h` that is followed by a body ending where the lookahead holds. */
  predicate HeaderEndOk(t: String, h: nat) {
    0 < h <= |t| && t[h - 1] == '\n' && BodyEndsAt(t, FindChar(t, '\n', h))
  }

  /** Backtracking of `\s*\n`: try header ends `k, k-1, ..., a+1` and keep the
      first that works. */
  function TryHeaderEnds(t: String, a: nat, k: nat): (r: Option<nat>)
    requires a <= k <= |t|
    ensures r.Some? ==> a < r.value <= k && HeaderEndOk(t, r.value)
    ensures forall h :: a < h <= k && (r.None? || r.value < h) ==> !HeaderEndOk(t, h)
    decreases k
  {
    if k == a then None
    else if HeaderEndOk(t, k) then Some(k)
    else TryHeaderEnds(t, a, k - 1)
  }

  /** What the attempt at `p` reports: no match at `p`, or the match at `p`
      with the greatest header end. */
  ghost predicate IsAttempt(t: String, name: String, p: nat, r: Option<Span>) {
    && (r.None? ==> forall h: nat, q: nat :: !IsMatch(t, name, p, h, q))
    && (r.Some? ==> r.value.start == p && IsMatch(t, name, p, r.value.bodyStart, r.value.end))
    && (r.Some? ==> forall h: nat, q: nat :: IsMatch(t, name, p, h, q) ==> h <= r.value.bodyStart)
  }

  /** The attempt of the regex engine at start position `p`. */
  function MatchAt(t: String, name: String, p: nat): (r: Option<Span>)
    ensures IsAttempt(t, name, p, r)
  {
    if !FoldAt(t, name, p) then None
    else
      var a := p + |name|;
      HeaderEndsDecide(t, name, p);
      match TryHeaderEnds(t, a, SpaceRunEnd(t, a))
      case None => None
      case Some(h) => Some(Span(p, h, FindChar(t, '\n', h)))
  }

  /** At a start where the name matches, the header ends the engine tries
      decide the match: none works and there is no match, or the first that
      works is the greatest header end of any match. */
  lemma HeaderEndsDecide(t: String, name: String, p: nat)
    requires FoldAt(t, name, p)
    ensures var a := p + |name|;
            IsAttempt(t, name, p,
              match TryHeaderEnds(t, a, SpaceRunEnd(t, a))
              case None => None
              case Some(h) => Some(Span(p, h, FindChar(t, '\n', h))))
  {
    var a := p + |name|;
    var w := SpaceRunEnd(t, a);
    var r := TryHeaderEnds(t, a, w);
    forall h: nat, q: nat | IsMatch(t, name, p, h, q)
      ensures r.Some? && h <= r.value
    {
      BodyIsRestOfLine(t, name, p, h, q);
      assert HeaderEndOk(t, h);
    }
  }

  /** `re.search` from position `from`. */
  function FindFrom(t: String, name: String, from: nat): (r: Option<Span>)
    ensures r.Some? ==> IsFirstMatch(t, name, from, r.value)
    ensures r.None? ==> NoMatchFrom(t, name, from)
    decreases |t| - from
  {
    if from >= |t| then
      PastEnd(t, name, from);
      None
    else
      match MatchAt(t, name, from)
      case Some(s) => Some(s)
      case None =>
        var r := FindFrom(t, name, from + 1);
        SkipStart(t, name, from, r);
        r
  }

  /** No match starts at or after the end of the text. */
  lemma PastEnd(t: String, name: String, from: nat)
    requires from >= |t|
    ensures NoMatchFrom(t, name, from)
  {
  }

  /** A start where nothing matches can be skipped by the search. */
  lemma SkipStart(t: String, name: String, from: nat, r: Option<Span>)
    requires forall h: nat, q: nat :: !IsMatch(t, name, from, h, q)
    requires r.Some? ==> IsFirstMatch(t, name, from + 1, r.value)
    requires r.None? ==> NoMatchFrom(t, name, from + 1)
    ensures r.Some? ==> IsFirstMatch(t, name, from, r.value)
    ensures r.None? ==> NoMatchFrom(t, name, from)
  {
  }

  /** There is only one first match. */
  lemma FirstMatchUnique(t: String, name: String, from: nat, s: Span, s': Span)
    requires IsFirstMatch(t, name, from, s) && IsFirstMatch(t, name, from, s')
    ensures s == s'
  {
    BodyIsRestOfLine(t, name, s.start, s.bodyStart, s.end);
    BodyIsRestOfLine(t, name, s'.start, s'.bodyStart, s'.end);
  }

  /** `extract_section`: the body of the first match, or "" when the pattern
      never matches. The body never holds a newline; the first match's body
      ends where the lookahead holds (`IsMatch`). */
  function ExtractSection(t: String, name: String): (body: String)
    requires IsAscii(name)
    ensures NoMatchFrom(t, name, 0) ==> body == []
    ensures forall s :: IsFirstMatch(t, name, 0, s) ==> body == t[s.bodyStart..s.end]
    ensures NoChar(body, '\n')
  {
    match FindFrom(t, name, 0)
    case None => []
    case Some(s) =>
      OnlyFirstMatch(t, name, 0, s);
      t[s.bodyStart..s.end]
  }

  /** A first match is the only one. */
  lemma OnlyFirstMatch(t: String, name: String, from: nat, s: Span)
    requires IsFirstMatch(t, name, from, s)
    ensures forall s' :: IsFirstMatch(t, name, from, s') ==> s' == s
  {
    forall s' | IsFirstMatch(t, name, from, s')
      ensures s' == s
    {
      FirstMatchUnique(t, name, from, s, s');
    }
  }

  /** `re.sub` from position `from`: every match, left to right and without
      overlap, keeps its header and gets `nb` in place of its body. */
  function ReplaceFrom(t: String, name: String, nb: String, from: nat): (r: String)
    requires from <= |t|
    ensures NoMatchFrom(t, name, from) ==> r == t[from..]
    ensures forall s :: IsFirstMatch(t, name, from, s) ==> StartsWith(r, t[from..s.bodyStart] + nb)
    decreases |t| - from
  {
    match FindFrom(t, name, from)
    case None => t[from..]
    case Some(s) =>
      OnlyFirstMatch(t, name, from, s);
      t[from..s.bodyStart] + nb + ReplaceFrom(t, name, nb, s.end)
  }

  /** `replace_section`. */
  function ReplaceSection(t: String, name: String, nb: String): (r: String)
    requires IsAscii(name)
    ensures NoMatchFrom(t, name, 0) ==> r == t
    ensures forall s :: IsFirstMatch(t, name, 0, s) ==> StartsWith(r, t[..s.bodyStart] + nb)
  {
    ReplaceFrom(t, name, nb, 0)
  }

  /** Every match `re.sub` and `re.finditer` visit from `from`, in order: each
      one is the first match after the end of the previous one, and nothing
      matches after the last. */
  function Matches(t: String, name: String, from: nat): (ms: seq<Span>)
    ensures forall i :: 0 <= i < |ms| ==>
              (if i == 0 then from else ms[i - 1].end) <= ms[i].start < ms[i].bodyStart <= ms[i].end <= |t|
    ensures forall i :: 0 <= i < |ms| ==>
              IsFirstMatch(t, name, if i == 0 then from else ms[i - 1].end, ms[i])
    ensures NoMatchFrom(t, name, if ms == [] then from else ms[|ms| - 1].end)
    decreases |t| - from
  {
    match FindFrom(t, name, from)
    case None => []
    case Some(s) => [s] + Matches(t, name, s.end)
  }

  /** The text rebuilt from its matches: the text between matches and every
      header kept, `nb` put in place of every body. */
  function Weave(t: String, ms: seq<Span>, from: nat, nb: String): String
    requires Ordered(t, ms, from)
    decreases |ms|
  {
    if ms == [] then t[from..]
    else t[from..ms[0].bodyStart] + nb + Weave(t, ms[1..], ms[0].end, nb)
  }

  /** Spans that lie in `t`, start at or after `from`, and follow one another. */
  predicate Ordered(t: String, ms: seq<Span>, from: nat)
    decreases |ms|
  {
    from <= |t| &&
    (ms != [] ==> from <= ms[0].bodyStart <= ms[0].end <= |t| && Ordered(t, ms[1..], ms[0].end))
  }

  /** Every span in `ms` has body `nb`. */
  predicate BodiesAre(t: String, ms: seq<Span>, nb: String) {
    forall i :: 0 <= i < |ms| ==> ms[i].bodyStart <= ms[i].end <= |t| && t[ms[i].bodyStart..ms[i].end] == nb
  }

  lemma {:induction false} MatchesOrdered(t: String, name: String, from: nat)
    requires from <= |t|
    ensures Ordered(t, Matches(t, name, from), from)
    decreases |t| - from
  {
    match FindFrom(t, name, from)
    case None =>
    case Some(s) =>
      MatchesOrdered(t, name, s.end);
  }

  /** `replace_section` rewrites every match, not only the first: its result
      is the text woven from all the matches with `nb` as every body. */
  lemma {:induction false} ReplaceIsWeave(t: String, name: String, nb: String, from: nat)
    requires from <= |t|
    ensures Ordered(t, Matches(t, name, from), from)
    ensures ReplaceFrom(t, name, nb, from) == Weave(t, Matches(t, name, from), from, nb)
    decreases |t| - from
  {
    MatchesOrdered(t, name, from);
    var ms := Matches(t, name, from);
    match FindFrom(t, name, from)
    case None =>
    case Some(s) =>
      ReplaceIsWeave(t, name, nb, s.end);
      assert ms[1..] == Matches(t, name, s.end);
  }

  /** Putting back the very body every match already has leaves the text as it was. */
  lemma {:induction false} ReplaceWithOwnBodies(t: String, name: String, nb: String, from: nat)
    requires from <= |t|
    requires BodiesAre(t, Matches(t, name, from), nb)
    ensures ReplaceFrom(t, name, nb, from) == t[from..]
  {
    ReplaceIsWeave(t, name, nb, from);
    WeaveOwnBodies(t, Matches(t, name, from), from, nb);
  }

  lemma {:induction false} WeaveOwnBodies(t: String, ms: seq<Span>, from: nat, nb: String)
    requires Ordered(t, ms, from)
    requires BodiesAre(t, ms, nb)
    ensures Weave(t, ms, from, nb) == t[from..]
    decreases |ms|
  {
    if ms != [] {
      var s := ms[0];
      assert BodiesAre(t, ms[1..], nb) by {
        forall i | 0 <= i < |ms[1..]|
          ensures ms[1..][i] == ms[i + 1]
        {
        }
      }
      WeaveOwnBodies(t, ms[1..], s.end, nb);
      assert t[from..] == t[from..s.bodyStart] + t[s.bodyStart..s.end] + t[s.end..];
    }
  }

  /** When the pattern matches exactly once, writing back the extracted body is
      the identity. */
  lemma ReplaceExtractedSection(t: String, name: String)
    requires IsAscii(name)
    requires |Matches(t, name, 0)| == 1
    ensures ReplaceSection(t, name, ExtractSection(t, name)) == t
  {
    var ms := Matches(t, name, 0);
    var s := ms[0];
    assert IsFirstMatch(t, name, 0, s);
    ReplaceWithOwnBodies(t, name, ExtractSection(t, name), 0);
  }
}
