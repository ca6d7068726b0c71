/** Three places where the section pattern of `bullet_utils.py` does less
    than its callers evidently expect, each stated against the pattern as
    written (module `Sections`) and paired with a corrected definition.

    - Without DOTALL a body is one line, so a section whose bullets fill
      several lines is not found at all.
    - `\Z` is the very end of the text, so a last section whose line ends
      with the file's final newline is not found either.
    - `re.sub` rewrites every match, so the body taken from the first
      matching section is written into every section of that name.

    The corrected pattern reads the body up to the next heading line, the
    end of the text or a final newline; the corrected splice rewrites the
    first match only. */
module SectionFixes {
  import opened Text
  import opened Options
  import opened Sections

  // ---------------------------------------------------------------------
  // The corrected pattern
  // ---------------------------------------------------------------------

  /** The corrected lookahead: a heading line, the end of the text, or the
      final newline of the text. */
  predicate EndsBody(t: String, q: nat) {
    q == |t| || (q + 1 == |t| && t[q] == '\n') || HeadingLineAt(t, q)
  }

  /** The header `t[p..h]`, as in the pattern as written: the name, then
      whitespace ending with a newline. */
  predicate SectionHeader(t: String, name: String, p: nat, h: nat) {
    && FoldAt(t, name, p)
    && p + |name| < h <= |t|
    && (forall j :: p + |name| <= j < h ==> IsSpace(t[j]))
    && t[h - 1] == '\n'
  }

  /** The lazy body `t[h..q]`, which may span lines: it stops at the first
      place where the corrected lookahead holds. */
  predicate LazyBody(t: String, h: nat, q: nat) {
    && h <= q <= |t|
    && (forall j :: h <= j < q ==> !EndsBody(t, j))
    && EndsBody(t, q)
  }

  /** The corrected pattern matches at `p` with header `t[p..h]` and body
      `t[h..q]`. */
  predicate IsSectionAt(t: String, name: String, p: nat, h: nat, q: nat) {
    SectionHeader(t, name, p, h) && LazyBody(t, h, q)
  }

  /** The leftmost match of the corrected pattern from `from`, with the
      greatest header end at its start. */
  ghost predicate IsFirstSection(t: String, name: String, from: nat, s: Span) {
    && from <= s.start
    && IsSectionAt(t, name, s.start, s.bodyStart, s.end)
    && (forall p: nat, h: nat, q: nat :: from <= p < s.start ==> !IsSectionAt(t, name, p, h, q))
    && (forall h: nat, q: nat :: IsSectionAt(t, name, s.start, h, q) ==> h <= s.bodyStart)
  }

  ghost predicate NoSectionFrom(t: String, name: String, from: nat) {
    forall p: nat, h: nat, q: nat :: from <= p ==> !IsSectionAt(t, name, p, h, q)
  }

  /** The lazy body: the first place at or after `k` where the corrected
      lookahead holds. There always is one, the end of the text. */
  function FirstEnd(t: String, k: nat): (q: nat)
    requires k <= |t|
    ensures LazyBody(t, k, q)
    decreases |t| - k
  {
    if EndsBody(t, k) then k else FirstEnd(t, k + 1)
  }

  /** The greatest header end in `(a, k]`: the place just after the last
      newline there. */
  function LastBreak(t: String, a: nat, k: nat): (r: Option<nat>)
    requires a <= k <= |t|
    ensures r.Some? ==> a < r.value <= k && t[r.value - 1] == '\n'
    ensures forall h :: a < h <= k && (r.None? || r.value < h) ==> !BreakBefore(t, h)
    decreases k
  {
    if k == a then None
    else if t[k - 1] == '\n' then Some(k)
    else LastBreak(t, a, k - 1)
  }

  /** A newline just before `h`. */
  predicate BreakBefore(t: String, h: nat) {
    0 < h <= |t| && t[h - 1] == '\n'
  }

  /** What the attempt of the corrected pattern at `p` reports. */
  ghost predicate IsSectionAttempt(t: String, name: String, p: nat, r: Option<Span>) {
    && (r.None? ==> forall h: nat, q: nat :: !IsSectionAt(t, name, p, h, q))
    && (r.Some? ==> r.value.start == p && IsSectionAt(t, name, p, r.value.bodyStart, r.value.end))
    && (r.Some? ==> forall h: nat, q: nat :: IsSectionAt(t, name, p, h, q) ==> h <= r.value.bodyStart)
  }

  /** The attempt at `p`: since a lazy body always finds an end, the greatest
      header end that closes on a newline wins. */
  function SectionAt(t: String, name: String, p: nat): (r: Option<Span>)
    ensures IsSectionAttempt(t, name, p, r)
  {
    if !FoldAt(t, name, p) then None
    else
      SectionAtDecide(t, name, p);
      LongestHeader(t, name, p)
  }

  /** The span with the greatest header end at `p`, if any. */
  function LongestHeader(t: String, name: String, p: nat): Option<Span>
    requires FoldAt(t, name, p)
  {
    var a := p + |name|;
    match LastBreak(t, a, SpaceRunEnd(t, a))
    case None => None
    case Some(h) => Some(Span(p, h, FirstEnd(t, h)))
  }

  lemma SectionAtDecide(t: String, name: String, p: nat)
    requires FoldAt(t, name, p)
    ensures IsSectionAttempt(t, name, p, LongestHeader(t, name, p))
  {
    var a := p + |name|;
    var w := SpaceRunEnd(t, a);
    var r := LastBreak(t, a, w);
    forall h: nat, q: nat | IsSectionAt(t, name, p, h, q)
      ensures r.Some? && h <= r.value
    {
      HeaderInRun(t, name, p, h);
    }
    if r.Some? {
      var h := r.value;
      HeaderFromRun(t, name, p, h);
      assert IsSectionAt(t, name, p, h, FirstEnd(t, h));
    }
  }

  /** A header ends inside the whitespace run after the name, just after a
      newline. */
  lemma HeaderInRun(t: String, name: String, p: nat, h: nat)
    requires SectionHeader(t, name, p, h)
    ensures h <= SpaceRunEnd(t, p + |name|) && BreakBefore(t, h)
  {
  }

  /** Conversely, any place just after a newline inside that run ends a header. */
  lemma HeaderFromRun(t: String, name: String, p: nat, h: nat)
    requires FoldAt(t, name, p)
    requires p + |name| < h <= SpaceRunEnd(t, p + |name|) && BreakBefore(t, h)
    ensures SectionHeader(t, name, p, h)
  {
  }

  /** `re.search` with the corrected pattern from `from`. */
  function FindSection(t: String, name: String, from: nat): (r: Option<Span>)
    ensures r.Some? ==> IsFirstSection(t, name, from, r.value)
    ensures r.None? ==> NoSectionFrom(t, name, from)
    decreases |t| - from
  {
    if from >= |t| then
      NoSectionPastEnd(t, name, from);
      None
    else
      match SectionAt(t, name, from)
      case Some(s) => Some(s)
      case None =>
        var r := FindSection(t, name, from + 1);
        SkipSectionStart(t, name, from, r);
        r
  }

  lemma NoSectionPastEnd(t: String, name: String, from: nat)
    requires from >= |t|
    ensures NoSectionFrom(t, name, from)
  {
  }

  /** A start where the corrected pattern does not match can be skipped. */
  lemma SkipSectionStart(t: String, name: String, from: nat, r: Option<Span>)
    requires forall h: nat, q: nat :: !IsSectionAt(t, name, from, h, q)
    requires r.Some? ==> IsFirstSection(t, name, from + 1, r.value)
    requires r.None? ==> NoSectionFrom(t, name, from + 1)
    ensures r.Some? ==> IsFirstSection(t, name, from, r.value)
    ensures r.None? ==> NoSectionFrom(t, name, from)
  {
  }

  /** There is only one first match of the corrected pattern. */
  lemma FirstSectionUnique(t: String, name: String, from: nat, s: Span, s': Span)
    requires IsFirstSection(t, name, from, s) && IsFirstSection(t, name, from, s')
    ensures s == s'
  {
    assert s.start == s'.start && s.bodyStart == s'.bodyStart;
  }

  /** `extract_section` with the corrected pattern: the body of the first
      section of that name, all its lines up to the next heading line or the
      end, or "" when there is none. */
  function ExtractSectionFixed(t: String, name: String): (body: String)
    requires IsAscii(name)
    ensures NoSectionFrom(t, name, 0) ==> body == []
    ensures forall s :: IsFirstSection(t, name, 0, s) ==> body == t[s.bodyStart..s.end]
  {
    match FindSection(t, name, 0)
    case None => []
    case Some(s) =>
      assert forall s' :: IsFirstSection(t, name, 0, s') ==> s' == s by {
        forall s' | IsFirstSection(t, name, 0, s')
          ensures s' == s
        {
          FirstSectionUnique(t, name, 0, s, s');
        }
      }
      t[s.bodyStart..s.end]
  }

  /** Wherever the pattern as written matches, the corrected one matches
      with the same header and body: the fix only adds matches. */
  lemma LineMatchIsSection(t: String, name: String, p: nat, h: nat, q: nat)
    requires IsMatch(t, name, p, h, q)
    ensures IsSectionAt(t, name, p, h, q)
  {
    forall j | h <= j < q
      ensures !EndsBody(t, j)
    {
      assert t[j] != '\n';
    }
  }

  /** A section whose body runs over several lines: the corrected pattern
      matches it whole, and the pattern as written does not match at that
      header at all, because the first line of the body is followed neither
      by a heading line nor by the end of the text. */
  lemma MultiLineSectionMissed(t: String, name: String, p: nat, h: nat, q: nat)
    requires IsSectionAt(t, name, p, h, q)
    requires FindChar(t, '\n', h) < q
    ensures forall q' :: !IsMatch(t, name, p, h, q')
  {
    forall q' | IsMatch(t, name, p, h, q')
      ensures false
    {
      BodyIsRestOfLine(t, name, p, h, q');
      assert EndsBody(t, q');
    }
  }

  /** A section whose one body line is the last line of the text and ends
      with the text's final newline: the pattern as written does not match
      at that header, the corrected one matches with that line as body. */
  lemma FinalLineSectionMissed(t: String, name: String, p: nat, h: nat)
    requires FoldAt(t, name, p) && p + |name| < h <= |t|
    requires forall j :: p + |name| <= j < h ==> IsSpace(t[j])
    requires t[h - 1] == '\n'
    requires FindChar(t, '\n', h) == |t| - 1
    ensures IsSectionAt(t, name, p, h, |t| - 1)
    ensures forall q :: !IsMatch(t, name, p, h, q)
  {
    forall j | h <= j < |t| - 1
      ensures !EndsBody(t, j)
    {
      assert t[j] != '\n';
    }
    forall q | IsMatch(t, name, p, h, q)
      ensures false
    {
      BodyIsRestOfLine(t, name, p, h, q);
    }
  }

  // ---------------------------------------------------------------------
  // Rewriting every match against rewriting the first
  // ---------------------------------------------------------------------

  /** The splice as written, fed back the body it extracted, changes the
      text as soon as two sections of that name have different bodies: the
      first body is written over the second. */
  lemma EchoOverwritesLaterSection(t: String, name: String)
    requires IsAscii(name)
    requires var ms := Matches(t, name, 0);
             |ms| >= 2 && t[ms[0].bodyStart..ms[0].end] != t[ms[1].bodyStart..ms[1].end]
    ensures ReplaceSection(t, name, ExtractSection(t, name)) != t
  {
    var ms := Matches(t, name, 0);
    FirstTwoMatches(t, name);
    EchoOverwritesSecond(t, name, ms[0], ms[1]);
  }

  lemma EchoOverwritesSecond(t: String, name: String, s0: Span, s1: Span)
    requires IsAscii(name)
    requires FindFrom(t, name, 0) == Some(s0) && FindFrom(t, name, s0.end) == Some(s1)
    requires s0.bodyStart <= s0.end <= |t| && s1.bodyStart <= s1.end <= |t|
    requires t[s0.bodyStart..s0.end] != t[s1.bodyStart..s1.end]
    ensures ReplaceSection(t, name, ExtractSection(t, name)) != t
  {
    var nb := ExtractSection(t, name);
    assert nb == t[s0.bodyStart..s0.end];
    SpliceTwice(t, name, nb, s0, s1);
    var tail := ReplaceFrom(t, name, nb, s1.end);
    var front := t[..s0.bodyStart] + nb + t[s0.end..s1.bodyStart];
    assert |front| == s1.bodyStart;
    if ReplaceFrom(t, name, nb, 0) == t {
      assert t == front + nb + tail;
      BodyIsRestOfLine(t, name, s1.start, s1.bodyStart, s1.end);
      ReplaceFromAtBreak(t, name, nb, s1.end);
      SecondBodyRepeats(t, front, nb, tail, s1.bodyStart, s1.end);
    }
  }

  /** A text that is `front`, then a line `nb`, then something that starts
      with a newline or is empty, has `nb` as the whole line after `front`. */
  lemma SecondBodyRepeats(t: String, front: String, nb: String, tail: String, k: nat, e: nat)
    requires t == front + nb + tail && k == |front|
    requires NoChar(nb, '\n')
    requires tail == [] || tail[0] == '\n'
    requires e == FindChar(t, '\n', k)
    ensures t[k..e] == nb
  {
    if k + |nb| < |t| {
      assert t[k + |nb|] == tail[0];
    }
    assert t[k..k + |nb|] == nb;
  }

  /** The first two matches are what the search finds from the start and
      from the end of the first. */
  lemma FirstTwoMatches(t: String, name: String)
    requires |Matches(t, name, 0)| >= 2
    ensures var ms := Matches(t, name, 0);
            FindFrom(t, name, 0) == Some(ms[0]) && FindFrom(t, name, ms[0].end) == Some(ms[1])
  {
    var ms := Matches(t, name, 0);
    assert Matches(t, name, ms[0].end) == ms[1..];
  }

  /** The splice as written over two successive matches. */
  lemma SpliceTwice(t: String, name: String, nb: String, s0: Span, s1: Span)
    requires FindFrom(t, name, 0) == Some(s0) && FindFrom(t, name, s0.end) == Some(s1)
    ensures s0.bodyStart <= s0.end <= s1.bodyStart <= s1.end <= |t|
    ensures ReplaceFrom(t, name, nb, 0)
            == t[..s0.bodyStart] + nb + t[s0.end..s1.bodyStart] + nb + ReplaceFrom(t, name, nb, s1.end)
  {
    var r1 := ReplaceFrom(t, name, nb, s0.end);
    assert r1 == t[s0.end..s1.bodyStart] + nb + ReplaceFrom(t, name, nb, s1.end);
    assert ReplaceFrom(t, name, nb, 0) == t[0..s0.bodyStart] + nb + r1;
    Regroup5(t[..s0.bodyStart], nb, t[s0.end..s1.bodyStart], ReplaceFrom(t, name, nb, s1.end));
  }

  lemma Regroup5(a: String, x: String, b: String, w: String)
    ensures a + x + (b + x + w) == a + x + b + x + w
  {
  }

  /** The rest of the splice after a body ends on a newline is empty or
      starts with that newline. */
  lemma ReplaceFromAtBreak(t: String, name: String, nb: String, from: nat)
    requires from <= |t|
    requires from < |t| ==> t[from] == '\n'
    ensures var r := ReplaceFrom(t, name, nb, from); r == [] || r[0] == '\n'
  {
    if from == |t| {
      PastEnd(t, name, from);
    }
  }

  /** The corrected splice: only the first match gets the new body, and the
      rest of the text is kept as it is. */
  function ReplaceFirstSection(t: String, name: String, nb: String): (r: String)
    requires IsAscii(name)
    ensures NoMatchFrom(t, name, 0) ==> r == t
    ensures forall s :: IsFirstMatch(t, name, 0, s) ==>
              && |r| == |t| - (s.end - s.bodyStart) + |nb|
              && r[..s.bodyStart] == t[..s.bodyStart]
              && r[s.bodyStart..s.bodyStart + |nb|] == nb
              && r[s.bodyStart + |nb|..] == t[s.end..]
  {
    match FindFrom(t, name, 0)
    case None => t
    case Some(s) =>
      OnlyFirstMatch(t, name, 0, s);
      t[..s.bodyStart] + nb + t[s.end..]
  }

  /** With the corrected splice, writing back the extracted body is the
      identity for every text, however many sections share the name. */
  lemma ReplaceFirstExtracted(t: String, name: String)
    requires IsAscii(name)
    ensures ReplaceFirstSection(t, name, ExtractSection(t, name)) == t
  {
    match FindFrom(t, name, 0)
    case None =>
    case Some(s) =>
      assert t == t[..s.bodyStart] + t[s.bodyStart..s.end] + t[s.end..];
  }

  /** Where the name matches at most once the two splices agree. */
  lemma ReplaceFirstAgrees(t: String, name: String, nb: String)
    requires IsAscii(name)
    requires |Matches(t, name, 0)| <= 1
    ensures ReplaceFirstSection(t, name, nb) == ReplaceSection(t, name, nb)
  {
    match FindFrom(t, name, 0)
    case None =>
    case Some(s) =>
      assert Matches(t, name, s.end) == [];
  }

  /** `replace_section` with both corrections: the corrected pattern finds
      the section, and only its first match gets the new body. */
  function ReplaceSectionFixed(t: String, name: String, nb: String): (r: String)
    requires IsAscii(name)
    ensures NoSectionFrom(t, name, 0) ==> r == t
    ensures forall s :: IsFirstSection(t, name, 0, s) ==>
              && |r| == |t| - (s.end - s.bodyStart) + |nb|
              && r[..s.bodyStart] == t[..s.bodyStart]
              && r[s.bodyStart..s.bodyStart + |nb|] == nb
              && r[s.bodyStart + |nb|..] == t[s.end..]
  {
    match FindSection(t, name, 0)
    case None => t
    case Some(s) =>
      assert forall s' :: IsFirstSection(t, name, 0, s') ==> s' == s by {
        forall s' | IsFirstSection(t, name, 0, s')
          ensures s' == s
        {
          FirstSectionUnique(t, name, 0, s, s');
        }
      }
      t[..s.bodyStart] + nb + t[s.end..]
  }

  /** Writing back the body the corrected pattern extracts is the identity
      for every text. */
  lemma ReplaceFixedExtracted(t: String, name: String)
    requires IsAscii(name)
    ensures ReplaceSectionFixed(t, name, ExtractSectionFixed(t, name)) == t
  {
    match FindSection(t, name, 0)
    case None =>
    case Some(s) =>
      assert t == t[..s.bodyStart] + t[s.bodyStart..s.end] + t[s.end..];
  }

  // ---------------------------------------------------------------------
  // Two texts on which the pattern as written misses the section
  // ---------------------------------------------------------------------

  /** A text of at most 16 characters that opens with the header
      "Projects" and a bullet line. */
  predicate OpensWithProjects(t: String) {
    |t| <= 16 && 10 <= |t| && t[..10] == "Projects\n-"
  }

  /** Two bullet lines under the header: the body spans two lines. */
  const TwoLineText: String := "Projects\n- a\n- b"

  /** One bullet line under the header, and the text ends with a newline. */
  const FinalLineText: String := "Projects\n- a\n"

  /** On `TwoLineText` the pattern as written finds no section, so
      `extract_section` gives the empty body; the corrected pattern gives
      both bullet lines. */
  lemma TwoLineExample()
    ensures ExtractSection(TwoLineText, "Projects") == []
    ensures ExtractSectionFixed(TwoLineText, "Projects") == "- a\n- b"
  {
    TwoLineShape();
    ProjectsMissed(TwoLineText);
    ProjectsFixed(TwoLineText, 16);
  }

  lemma TwoLineShape()
    ensures OpensWithProjects(TwoLineText)
    ensures IsSectionAt(TwoLineText, "Projects", 0, 9, 16)
    ensures forall q :: !IsMatch(TwoLineText, "Projects", 0, 9, q)
    ensures TwoLineText[9..16] == "- a\n- b"
  {
    TwoLineSection();
    MultiLineSectionMissed(TwoLineText, "Projects", 0, 9, 16);
  }

  lemma TwoLineSection()
    ensures IsSectionAt(TwoLineText, "Projects", 0, 9, 16)
  {
    assert LazyBody(TwoLineText, 9, 16);
  }

  /** On `FinalLineText` the pattern as written finds no section either,
      because its body is followed by the final newline and not by the end
      of the text; the corrected pattern gives the bullet line. */
  lemma FinalLineExample()
    ensures ExtractSection(FinalLineText, "Projects") == []
    ensures ExtractSectionFixed(FinalLineText, "Projects") == "- a"
  {
    FinalLineShape();
    ProjectsMissed(FinalLineText);
    ProjectsFixed(FinalLineText, 12);
  }

  lemma FinalLineShape()
    ensures OpensWithProjects(FinalLineText)
    ensures IsSectionAt(FinalLineText, "Projects", 0, 9, 12)
    ensures forall q :: !IsMatch(FinalLineText, "Projects", 0, 9, q)
    ensures FinalLineText[9..12] == "- a"
  {
    FinalLineSectionMissed(FinalLineText, "Projects", 0, 9);
  }

  /** In such a text the name occurs only at the start. */
  lemma ProjectsAtStart(t: String, p: nat)
    requires OpensWithProjects(t) && FoldAt(t, "Projects", p)
    ensures p == 0
  {
    var c := t[p];
    assert FoldEq("Projects"[0], t[p + 0]);
    assert c == 'P' || c == 'p';
  }

  /** ... and the header is the first line. */
  lemma ProjectsHeader(t: String, h: nat)
    requires OpensWithProjects(t) && SectionHeader(t, "Projects", 0, h)
    ensures h == 9
  {
    assert !IsSpace(t[9]);
  }

  /** When the pattern as written has no match at the first header, it has
      none at all. */
  lemma ProjectsMissed(t: String)
    requires OpensWithProjects(t)
    requires forall q :: !IsMatch(t, "Projects", 0, 9, q)
    ensures ExtractSection(t, "Projects") == []
  {
    forall p: nat, h: nat, q: nat | IsMatch(t, "Projects", p, h, q)
      ensures false
    {
      ProjectsAtStart(t, p);
      LineMatchIsSection(t, "Projects", p, h, q);
      ProjectsHeader(t, h);
    }
  }

  /** When the corrected pattern matches at the first header, its body is
      the one extracted. */
  lemma ProjectsFixed(t: String, q: nat)
    requires OpensWithProjects(t) && IsSectionAt(t, "Projects", 0, 9, q)
    ensures ExtractSectionFixed(t, "Projects") == t[9..q]
  {
    var r := FindSection(t, "Projects", 0);
    assert r.Some?;
    var s := r.value;
    ProjectsAtStart(t, s.start);
    ProjectsHeader(t, s.bodyStart);
  }
}
