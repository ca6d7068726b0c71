/** The section splitter and the bullet classifier of the older pipeline in
    `resume_tailor.py`: `extract_sections` and `extract_bullet_points`.

    That file writes its bullet glyph as the three characters U+201A U+00C4
    U+00A2 (the UTF-8 bytes of a bullet read as Mac Roman); it is the
    constant `G`. Lower-casing is modelled on the alphabet of ASCII and those
    three characters. */
module LegacySections {
  import opened Text
  import opened Options

  /** The bullet glyph as the source spells it. */
  const G: String := "\U{201A}\U{C4}\U{A2}"

  /** The alphabet the older pipeline is modelled over. */
  predicate IsResumeChar(c: char) {
    c < '\U{80}' || c == '\U{201A}' || c == '\U{C4}' || c == '\U{A2}'
  }

  /** A text wholly in that alphabet. */
  predicate ResumeText(s: String) {
    forall i :: 0 <= i < |s| ==> IsResumeChar(s[i])
  }

  /** `str.lower()` on one character of that alphabet. */
  function LowerChar(c: char): char {
    if c == '\U{C4}' then '\U{E4}' else AsciiLower(c)
  }

  function Lower(s: String): String {
    seq(|s|, i requires 0 <= i < |s| => LowerChar(s[i]))
  }

  /** Lower-casing keeps whitespace and makes none. */
  lemma LowerSpace(s: String)
    ensures AllSpace(s) <==> AllSpace(Lower(s))
  {
    assert forall i :: 0 <= i < |s| ==> (IsSpace(s[i]) <==> IsSpace(Lower(s)[i]));
  }

  // ----- section headers -----

  /** The five header patterns, each as the list of its alternatives, with
      `projects?` written out as "projects" and "project". */
  const SectionPatterns: seq<seq<String>> :=
    [ExperienceAlts, ProjectAlts, EducationAlts, SkillAlts, AchievementAlts]

  const ExperienceAlts: seq<String> :=
    ["work experience", "professional experience", "employment", "experience"]
  const ProjectAlts: seq<String> :=
    ["projects", "project", "personal projects", "personal project", "key projects", "key project"]
  const EducationAlts: seq<String> := ["education", "academic background"]
  const SkillAlts: seq<String> :=
    ["skills", "skill", "technical skills", "technical skill", "core competencies"]
  const AchievementAlts: seq<String> :=
    ["achievements", "achievement", "accomplishments", "accomplishment", "awards", "award"]

  /** `re.search` of an alternation of plain words: one of them occurs. */
  predicate FoundAny(s: String, alts: seq<String>)
    decreases |alts|
  {
    alts != [] && (Contains(s, alts[0]) || FoundAny(s, alts[1..]))
  }

  lemma {:induction false} FoundAnyIff(s: String, alts: seq<String>)
    ensures FoundAny(s, alts) <==> exists k :: 0 <= k < |alts| && Contains(s, alts[k])
    decreases |alts|
  {
    if alts != [] {
      FoundAnyIff(s, alts[1..]);
      if k :| 1 <= k < |alts| && Contains(s, alts[k]) {
        assert alts[1..][k - 1] == alts[k];
      }
    }
  }

  /** One of the patterns is found. */
  predicate AnyPattern(s: String, pats: seq<seq<String>>)
    decreases |pats|
  {
    pats != [] && (FoundAny(s, pats[0]) || AnyPattern(s, pats[1..]))
  }

  lemma {:induction false} AnyPatternIff(s: String, pats: seq<seq<String>>)
    ensures AnyPattern(s, pats) <==> exists p :: 0 <= p < |pats| && FoundAny(s, pats[p])
    decreases |pats|
  {
    if pats != [] {
      AnyPatternIff(s, pats[1..]);
      if p :| 1 <= p < |pats| && FoundAny(s, pats[p]) {
        assert pats[1..][p - 1] == pats[p];
      }
    }
  }

  /** The header test of `extract_sections`: the lower-cased, stripped line
      holds one of the patterns and the stripped line is shorter than 50. */
  predicate IsSectionHeader(line: String) {
    AnyPattern(Strip(Lower(line)), SectionPatterns) && |Strip(line)| < 50
  }

  /** The ten words every alternative comes down to. */
  const HeaderWords: seq<String> := [
    "experience", "employment", "project", "education", "academic background",
    "skill", "core competencies", "achievement", "accomplishment", "award"
  ]

  /** A line is a header exactly when its lower-cased, stripped text holds
      one of the ten words and its stripped text is shorter than 50. */
  lemma HeaderWordsIff(line: String)
    ensures IsSectionHeader(line) <==> FoundAny(Strip(Lower(line)), HeaderWords) && |Strip(line)| < 50
  {
    var s := Strip(Lower(line));
    AnyPatternIff(s, SectionPatterns);
    FoundAnyIff(s, HeaderWords);
    if p :| 0 <= p < |SectionPatterns| && FoundAny(s, SectionPatterns[p]) {
      FoundAnyIff(s, SectionPatterns[p]);
      var k :| 0 <= k < |SectionPatterns[p]| && Contains(s, SectionPatterns[p][k]);
      var w, off := AltWord(p, k);
      Within(s, SectionPatterns[p][k], w, off);
    }
    if k :| 0 <= k < |HeaderWords| && Contains(s, HeaderWords[k]) {
      var p, j := WordAlt(k);
      FoundAnyIff(s, SectionPatterns[p]);
    }
  }

  /** Whatever holds a string holds every piece of it. */
  lemma Within(s: String, a: String, w: String, off: nat)
    requires Contains(s, a) && OccursAt(a, w, off)
    ensures Contains(s, w)
  {
    var i :| 0 <= i <= |s| && OccursAt(s, a, i);
    forall j | 0 <= j < |w|
      ensures s[i + off + j] == w[j]
    {
      assert a[off..off + |w|][j] == w[j];
      assert s[i..i + |a|][off + j] == a[off + j];
    }
    assert s[i + off..i + off + |w|] == w;
    assert OccursAt(s, w, i + off);
  }

  /** Each alternative holds one of the ten words. */
  lemma AltWord(p: nat, k: nat) returns (w: String, off: nat)
    requires p < |SectionPatterns| && k < |SectionPatterns[p]|
    ensures w in HeaderWords && OccursAt(SectionPatterns[p][k], w, off)
  {
    if p == 0 {
      w, off := ExperienceWord(k);
    } else if p == 1 {
      w, off := ProjectWord(k);
    } else if p == 2 {
      w, off := SectionPatterns[2][k], 0;
    } else if p == 3 {
      w, off := SkillWord(k);
    } else {
      w, off := AchievementWord(k);
    }
  }

  /** A word between two strings occurs right after the first. */
  lemma Infix(u: String, w: String, v: String)
    ensures OccursAt(u + w + v, w, |u|)
  {
    assert (u + w + v)[|u|..|u| + |w|] == w;
  }

  lemma ExperienceWord(k: nat) returns (w: String, off: nat)
    requires k < 4
    ensures w in HeaderWords && OccursAt(ExperienceAlts[k], w, off)
  {
    var u, v;
    if k == 0 {
      u, w, v := "work ", "experience", "";
    } else if k == 1 {
      u, w, v := "professional ", "experience", "";
    } else if k == 2 {
      u, w, v := "", "employment", "";
    } else {
      u, w, v := "", "experience", "";
    }
    assert w == HeaderWords[if k == 2 then 1 else 0];
    assert ExperienceAlts[k] == u + w + v;
    Infix(u, w, v);
    off := |u|;
  }

  lemma ProjectWord(k: nat) returns (w: String, off: nat)
    requires k < 6
    ensures w in HeaderWords && OccursAt(ProjectAlts[k], w, off)
  {
    w := "project";
    var u, v;
    if k == 0 {
      u, v := "", "s";
    } else if k == 1 {
      u, v := "", "";
    } else if k == 2 {
      u, v := "personal ", "s";
    } else if k == 3 {
      u, v := "personal ", "";
    } else if k == 4 {
      u, v := "key ", "s";
    } else {
      u, v := "key ", "";
    }
    assert w == HeaderWords[2];
    assert ProjectAlts[k] == u + w + v;
    Infix(u, w, v);
    off := |u|;
  }

  lemma SkillWord(k: nat) returns (w: String, off: nat)
    requires k < 5
    ensures w in HeaderWords && OccursAt(SkillAlts[k], w, off)
  {
    w := "skill";
    var u, v;
    if k == 0 {
      u, v := "", "s";
    } else if k == 1 {
      u, v := "", "";
    } else if k == 2 {
      u, v := "technical ", "s";
    } else if k == 3 {
      u, v := "technical ", "";
    } else {
      u, w, v := "", "core competencies", "";
    }
    assert w == HeaderWords[if k == 4 then 6 else 5];
    assert SkillAlts[k] == u + w + v;
    Infix(u, w, v);
    off := |u|;
  }

  lemma AchievementWord(k: nat) returns (w: String, off: nat)
    requires k < 6
    ensures w in HeaderWords && OccursAt(AchievementAlts[k], w, off)
  {
    var v := if k % 2 == 0 then "s" else "";
    w := if k < 2 then "achievement" else if k < 4 then "accomplishment" else "award";
    assert w == HeaderWords[if k < 2 then 7 else if k < 4 then 8 else 9];
    assert AchievementAlts[k] == [] + w + v;
    Infix([], w, v);
    off := 0;
  }

  /** Each of the ten words is an alternative. */
  lemma WordAlt(k: nat) returns (p: nat, j: nat)
    requires k < |HeaderWords|
    ensures p < |SectionPatterns| && j < |SectionPatterns[p]| && SectionPatterns[p][j] == HeaderWords[k]
  {
    if k < 2 {
      p, j := 0, 3 - k;
    } else if k == 2 {
      p, j := 1, 1;
    } else if k < 5 {
      p, j := 2, k - 3;
    } else if k == 5 {
      p, j := 3, 1;
    } else if k == 6 {
      p, j := 3, 4;
    } else {
      p, j := 4, 2 * k - 13;
    }
  }

  /** None of `alts` is the empty word. */
  predicate NonEmptyWords(alts: seq<String>) {
    forall k :: 0 <= k < |alts| ==> alts[k] != []
  }

  lemma HeaderWordsNonEmpty()
    ensures NonEmptyWords(HeaderWords)
  {
  }

  /** No word of a list of non-empty words is found in the empty string. */
  lemma {:induction false} NoneInEmpty(alts: seq<String>)
    requires NonEmptyWords(alts)
    ensures !FoundAny([], alts)
    decreases |alts|
  {
    if alts != [] {
      NoneInEmpty(alts[1..]);
    }
  }

  /** A line whose lower-cased, stripped text holds a non-empty word is not blank. */
  lemma FoundNotBlank(line: String, alts: seq<String>)
    requires NonEmptyWords(alts) && FoundAny(Strip(Lower(line)), alts)
    ensures Strip(line) != []
  {
    NoneInEmpty(alts);
    StripEmpty(Lower(line));
    StripEmpty(line);
    LowerSpace(line);
  }

  /** A header line is never blank once stripped, so the name it opens is
      never the empty (false) section name; in particular the empty line is
      no header. */
  lemma HeaderNotBlank(line: String)
    ensures IsSectionHeader(line) ==> Strip(line) != []
    ensures !IsSectionHeader([])
  {
    HeaderWordsIff(line);
    HeaderWordsNonEmpty();
    if FoundAny(Strip(Lower(line)), HeaderWords) {
      FoundNotBlank(line, HeaderWords);
    }
    HeaderWordsIff([]);
    StripEmpty([]);
    if FoundAny(Strip(Lower([])), HeaderWords) {
      FoundNotBlank([], HeaderWords);
    }
  }

  // ----- bullet points -----

  /** The end of the run of ASCII digits from `from`. */
  function DigitRunEnd(s: String, from: nat): (j: nat)
    requires from <= |s|
    ensures from <= j <= |s|
    ensures forall k :: from <= k < j ==> IsAsciiDigit(s[k])
    ensures j < |s| ==> !IsAsciiDigit(s[j])
    decreases |s| - from
  {
    if from == |s| || !IsAsciiDigit(s[from]) then from else DigitRunEnd(s, from + 1)
  }

  /** `re.match(r'^\d+\.', s)`. The greedy run of digits must be followed by
      the dot: giving a digit back cannot help, a digit is no dot. */
  predicate StartsNumbered(s: String) {
    var k := DigitRunEnd(s, 0);
    0 < k < |s| && s[k] == '.'
  }

  /** `s` is `k` digits and then a dot. */
  predicate DigitsThenDot(s: String, k: nat) {
    0 < k < |s| && s[k] == '.' && forall j :: 0 <= j < k ==> IsAsciiDigit(s[j])
  }

  /** The greedy reading agrees with the pattern: some positive number of
      digits followed by a dot. */
  lemma StartsNumberedIff(s: String)
    ensures StartsNumbered(s) <==> exists k :: DigitsThenDot(s, k)
  {
    var e := DigitRunEnd(s, 0);
    if k: nat :| DigitsThenDot(s, k) {
      assert e == k;
    }
    if StartsNumbered(s) {
      assert DigitsThenDot(s, e);
    }
  }

  /** The achievement verbs looked for in longer lines. */
  const Verbs: seq<String> := ["developed", "managed", "led", "created", "implemented", "designed", "achieved"]

  /** The test `extract_bullet_points` applies to a stripped line. */
  predicate IsBulletPoint(s: String) {
    || StartsWith(s, G) || StartsWith(s, "-") || StartsWith(s, "*")
    || StartsNumbered(s)
    || (|s| > 20 && FoundAny(Lower(s), Verbs))
  }

  /** `f` applied to every element of `xs`, keeping the results that pass `keep`. */
  function FilterMap(xs: seq<String>, f: String -> String, keep: String -> bool): seq<String>
  {
    if xs == [] then []
    else (if keep(f(xs[0])) then [f(xs[0])] else []) + FilterMap(xs[1..], f, keep)
  }

  /** A result is some element's image that passes the test, and each such
      image is a result. */
  lemma {:induction false} FilterMapIff(xs: seq<String>, f: String -> String, keep: String -> bool, y: String)
    ensures y in FilterMap(xs, f, keep) <==> exists k :: 0 <= k < |xs| && y == f(xs[k]) && keep(y)
  {
    if xs != [] {
      var h := if keep(f(xs[0])) then [f(xs[0])] else [];
      var t := FilterMap(xs[1..], f, keep);
      assert FilterMap(xs, f, keep) == h + t;
      FilterMapIff(xs[1..], f, keep, y);
      if y in t {
        var k :| 0 <= k < |xs[1..]| && y == f(xs[1..][k]) && keep(y);
        assert xs[k + 1] == xs[1..][k];
      }
      if k :| 1 <= k < |xs| && y == f(xs[k]) && keep(y) {
        assert xs[1..][k - 1] == xs[k];
      }
    }
  }

  /** The filter works element by element, in order. */
  lemma {:induction false} FilterMapAppend(a: seq<String>, b: seq<String>, f: String -> String, keep: String -> bool)
    ensures FilterMap(a + b, f, keep) == FilterMap(a, f, keep) + FilterMap(b, f, keep)
  {
    if a != [] {
      var h := if keep(f(a[0])) then [f(a[0])] else [];
      assert (a + b)[0] == a[0];
      assert (a + b)[1..] == a[1..] + b;
      FilterMapAppend(a[1..], b, f, keep);
      assert h + (FilterMap(a[1..], f, keep) + FilterMap(b, f, keep))
          == (h + FilterMap(a[1..], f, keep)) + FilterMap(b, f, keep);
    } else {
      assert a + b == b;
    }
  }

  /** `extract_bullet_points`: every line stripped, the bullet points kept. */
  function ExtractBulletPoints(text: String): seq<String>
  {
    FilterMap(Split(text, '\n'), Strip, IsBulletPoint)
  }

  /** Line `k` of `ls`, stripped, is `y` and passes the bullet test. */
  predicate PointAt(ls: seq<String>, k: int, y: String) {
    0 <= k < |ls| && y == Strip(ls[k]) && IsBulletPoint(y)
  }

  /** A bullet point is a stripped line of the text that passes the test,
      and every stripped line that passes it is one. */
  lemma ExtractBulletPointsIff(text: String, y: String)
    ensures y in ExtractBulletPoints(text) <==> exists k :: PointAt(Split(text, '\n'), k, y)
  {
    assert ExtractBulletPoints(text) == FilterMap(Split(text, '\n'), Strip, IsBulletPoint);
    PointsIff(Split(text, '\n'), y);
  }

  lemma PointsIff(ls: seq<String>, y: String)
    ensures y in FilterMap(ls, Strip, IsBulletPoint) <==> exists k :: PointAt(ls, k, y)
  {
    FilterMapIff(ls, Strip, IsBulletPoint, y);
    if y in FilterMap(ls, Strip, IsBulletPoint) {
      var k :| 0 <= k < |ls| && y == Strip(ls[k]) && IsBulletPoint(y);
      assert PointAt(ls, k, y);
    } else {
      assert forall k :: 0 <= k < |ls| ==> !PointAt(ls, k, y);
    }
  }

  /** Two texts joined by a newline have the bullet points of the first
      followed by those of the second. */
  lemma ExtractBulletPointsJoin(a: String, b: String)
    ensures ExtractBulletPoints(a + "\n" + b) == ExtractBulletPoints(a) + ExtractBulletPoints(b)
  {
    SplitAround(a, b, '\n');
    FilterMapAppend(Split(a, '\n'), Split(b, '\n'), Strip, IsBulletPoint);
  }

  // ----- sections -----

  /** One section of the result: its text, the approximate line number the
      source stores (absent for the "header" entry), and its bullets. */
  datatype SectionData = SectionData(content: String, startLine: Option<nat>, bulletPoints: seq<String>)

  /** An item of the insertion-ordered dictionary the function returns. */
  datatype Entry = Entry(name: String, data: SectionData)

  /** The key of the text before the first header. */
  const HeaderKey: String := "header"

  function Lookup(es: seq<Entry>, k: String): Option<SectionData>
  {
    if es == [] then None
    else if es[0].name == k then Some(es[0].data)
    else Lookup(es[1..], k)
  }

  /** `d[e.name] = e.data`: an existing key keeps its place, a new one goes last. */
  function Put(es: seq<Entry>, e: Entry): seq<Entry>
  {
    if es == [] then [e]
    else if es[0].name == e.name then [e] + es[1..]
    else [es[0]] + Put(es[1..], e)
  }

  /** After `Put`, the key holds the new value, every other key its old one. */
  lemma {:induction false} LookupPut(es: seq<Entry>, e: Entry, k: String)
    ensures Lookup(Put(es, e), k) == if k == e.name then Some(e.data) else Lookup(es, k)
  {
    if es != [] && es[0].name != e.name {
      LookupPut(es[1..], e, k);
    }
  }

  predicate UniqueKeys(es: seq<Entry>) {
    forall i, j :: 0 <= i < j < |es| ==> es[i].name != es[j].name
  }

  /** `Put` adds the entry and keeps every other entry; keys stay unique. */
  lemma {:induction false} PutMembers(es: seq<Entry>, e: Entry)
    ensures e in Put(es, e)
    ensures forall x :: x in Put(es, e) ==> x == e || x in es
    ensures UniqueKeys(es) ==> UniqueKeys(Put(es, e))
  {
    if es != [] && es[0].name != e.name {
      var rest := Put(es[1..], e);
      PutMembers(es[1..], e);
      if UniqueKeys(es) {
        assert UniqueKeys(es[1..]);
        assert forall x :: x in rest ==> x.name != es[0].name by {
          forall x | x in rest
            ensures x.name != es[0].name
          {
            if x != e {
              var i :| 0 <= i < |es[1..]| && es[1..][i] == x;
              assert es[i + 1] == x;
            }
          }
        }
      }
    }
  }

  /** A section name is true when it is present and not empty. */
  predicate Truthy(cur: Option<String>) {
    cur.Some? && cur.value != []
  }

  /** What the loop consults: the header test, the name a header line
      opens, and the bullet classifier of a finished section. */
  datatype Rules = Rules(
    isHeader: String -> bool,
    nameOf: String -> String,
    bullets: String -> seq<String>)

  /** The rules of `extract_sections`. */
  const Legacy: Rules := Rules(IsSectionHeader, Strip, ExtractBulletPoints)

  /** The lines under a header recorded as a section: joined with '\n',
      numbered by the dictionary's size, and classified. */
  function Record(r: Rules, es: seq<Entry>, name: String, lines: seq<String>): seq<Entry>
  {
    var c := Join(lines, "\n");
    Put(es, Entry(name, SectionData(c, Some(|es| * 10), r.bullets(c))))
  }

  /** Every header opens a section with a true (non-empty) name. */
  ghost predicate NamedHeaders(r: Rules) {
    forall l :: r.isHeader(l) ==> r.nameOf(l) != []
  }

  /** Saving the open section, done only when it has a name and at least one line. */
  function Close(r: Rules, es: seq<Entry>, cur: Option<String>, content: seq<String>): seq<Entry>
  {
    if Truthy(cur) && content != [] then Record(r, es, cur.value, content) else es
  }

  /** A line before any header: appended, with '\n', to the "header" entry. */
  function AddPreamble(es: seq<Entry>, line: String): seq<Entry>
  {
    var d := match Lookup(es, HeaderKey)
      case Some(d) => d
      case None => SectionData([], None, []);
    Put(es, Entry(HeaderKey, d.(content := d.content + line + "\n")))
  }

  /** The loop of `extract_sections` over the lines `ls`, with the
      dictionary, the open section's name and its lines so far. */
  function Scan(r: Rules, ls: seq<String>, es: seq<Entry>, cur: Option<String>, content: seq<String>): seq<Entry>
    decreases |ls|
  {
    if ls == [] then Close(r, es, cur, content)
    else
      var l := ls[0];
      var header := r.isHeader(l);
      var es1 := if header then Close(r, es, cur, content) else es;
      var cur1 := if header then Some(r.nameOf(l)) else cur;
      var content1 := if header then [] else content;
      if !header && Truthy(cur1) then Scan(r, ls[1..], es1, cur1, content1 + [l])
      else if !Truthy(cur1) then Scan(r, ls[1..], AddPreamble(es1, l), cur1, content1)
      else Scan(r, ls[1..], es1, cur1, content1)
  }

  /** `extract_sections`. */
  function ExtractSections(text: String): seq<Entry>
    requires ResumeText(text)
  {
    Scan(Legacy, Split(text, '\n'), [], None, [])
  }

  // ----- the same result, block by block -----

  /** The first header line at or after `from`, or `|ls|`. */
  function NextHeader(r: Rules, ls: seq<String>, from: nat): (j: nat)
    requires from <= |ls|
    ensures from <= j <= |ls|
    ensures j < |ls| ==> r.isHeader(ls[j])
    ensures forall k :: from <= k < j ==> !r.isHeader(ls[k])
    decreases |ls| - from
  {
    if from == |ls| || r.isHeader(ls[from]) then from else NextHeader(r, ls, from + 1)
  }

  /** Lines each followed by '\n'. */
  function Terminated(xs: seq<String>): String
  {
    if xs == [] then [] else Terminated(xs[..|xs| - 1]) + xs[|xs| - 1] + "\n"
  }

  /** The "header" entry for the lines before the first header, if any. */
  function Preamble(pre: seq<String>): seq<Entry>
  {
    if pre == [] then [] else [Entry(HeaderKey, SectionData(Terminated(pre), None, []))]
  }

  /** The blocks from the header at `i` on: each header with the lines up to
      the next header, recorded when there is at least one. */
  function Blocks(r: Rules, ls: seq<String>, i: nat, es: seq<Entry>): seq<Entry>
    requires i < |ls| && r.isHeader(ls[i])
    decreases |ls| - i
  {
    var j := NextHeader(r, ls, i + 1);
    var es1 := if i + 1 < j then Record(r, es, r.nameOf(ls[i]), ls[i + 1..j]) else es;
    if j == |ls| then es1 else Blocks(r, ls, j, es1)
  }

  /** The preamble, then the blocks. */
  function SectionsOf(r: Rules, ls: seq<String>): seq<Entry>
  {
    var h := NextHeader(r, ls, 0);
    var pre := Preamble(ls[..h]);
    if h == |ls| then pre else Blocks(r, ls, h, pre)
  }

  /** The line-by-line loop builds the block-by-block result. */
  lemma ExtractSectionsByBlocks(text: String)
    requires ResumeText(text)
    ensures ExtractSections(text) == SectionsOf(Legacy, Split(text, '\n'))
  {
    forall l | Legacy.isHeader(l)
      ensures Legacy.nameOf(l) != []
    {
      HeaderNotBlank(l);
    }
    ScanIsBlocks(Legacy, Split(text, '\n'));
  }

  /** The same for any rules whose headers are never blank. */
  lemma ScanIsBlocks(r: Rules, ls: seq<String>)
    requires NamedHeaders(r)
    ensures Scan(r, ls, [], None, []) == SectionsOf(r, ls)
  {
    assert ls[..0] == [] && ls[0..] == ls;
    ScanPreamble(r, ls, 0);
  }

  /** Before the first header every line goes to the "header" entry. */
  lemma {:induction false} ScanPreamble(r: Rules, ls: seq<String>, k: nat)
    requires NamedHeaders(r)
    requires k <= NextHeader(r, ls, 0)
    ensures Scan(r, ls[k..], Preamble(ls[..k]), None, []) == SectionsOf(r, ls)
    decreases |ls| - k
  {
    var h := NextHeader(r, ls, 0);
    if k < h {
      assert ls[k..][1..] == ls[k + 1..];
      PreambleStep(ls[..k], ls[k]);
      assert ls[..k] + [ls[k]] == ls[..k + 1];
      ScanPreamble(r, ls, k + 1);
    } else if h < |ls| {
      ScanHeaderLine(r, ls[h..], Preamble(ls[..h]), None, []);
      assert ls[h..][1..] == ls[h + 1..];
      assert ls[h + 1..h + 1] == [];
      ScanBlock(r, ls, h, h + 1, Preamble(ls[..h]));
    }
  }

  /** One more preamble line. */
  lemma PreambleStep(pre: seq<String>, l: String)
    ensures AddPreamble(Preamble(pre), l) == Preamble(pre + [l])
  {
    assert (pre + [l])[..|pre|] == pre;
  }

  /** A line that is no header, with a section open, joins its lines. */
  lemma ScanBodyLine(r: Rules, ls: seq<String>, es: seq<Entry>, cur: Option<String>, content: seq<String>)
    requires ls != [] && !r.isHeader(ls[0]) && Truthy(cur)
    ensures Scan(r, ls, es, cur, content) == Scan(r, ls[1..], es, cur, content + [ls[0]])
  {
  }

  /** A header line that is not blank closes the open section and opens its own. */
  lemma ScanHeaderLine(r: Rules, ls: seq<String>, es: seq<Entry>, cur: Option<String>, content: seq<String>)
    requires ls != [] && r.isHeader(ls[0]) && r.nameOf(ls[0]) != []
    ensures Scan(r, ls, es, cur, content) == Scan(r, ls[1..], Close(r, es, cur, content), Some(r.nameOf(ls[0])), [])
  {
  }

  /** Inside the block of the header at `i`, the loop collects the block's
      lines and then records it as `Blocks` does. */
  lemma {:induction false} ScanBlock(r: Rules, ls: seq<String>, i: nat, k: nat, es: seq<Entry>)
    requires NamedHeaders(r)
    requires i < |ls| && r.isHeader(ls[i])
    requires i < k <= NextHeader(r, ls, i + 1)
    ensures Scan(r, ls[k..], es, Some(r.nameOf(ls[i])), ls[i + 1..k]) == Blocks(r, ls, i, es)
    decreases |ls| - i, 1
  {
    ScanToNext(r, ls, i, k, NextHeader(r, ls, i + 1), es);
    ScanBlockEnd(r, ls, i, es);
  }

  /** The lines up to the next header join the open block one by one. */
  lemma {:induction false} ScanToNext(r: Rules, ls: seq<String>, i: nat, k: nat, j: nat, es: seq<Entry>)
    requires NamedHeaders(r)
    requires i < k <= j <= |ls| && r.isHeader(ls[i])
    requires forall m :: k <= m < j ==> !r.isHeader(ls[m])
    ensures var cur := Some(r.nameOf(ls[i]));
            Scan(r, ls[k..], es, cur, ls[i + 1..k]) == Scan(r, ls[j..], es, cur, ls[i + 1..j])
    decreases j - k
  {
    if k < j {
      ScanBlockStep(r, ls, i, k, es);
      ScanToNext(r, ls, i, k + 1, j, es);
    }
  }

  /** A line before the next header joins the open block. */
  lemma ScanBlockStep(r: Rules, ls: seq<String>, i: nat, k: nat, es: seq<Entry>)
    requires NamedHeaders(r)
    requires i < k < |ls| && r.isHeader(ls[i]) && !r.isHeader(ls[k])
    ensures var cur := Some(r.nameOf(ls[i]));
            Scan(r, ls[k..], es, cur, ls[i + 1..k]) == Scan(r, ls[k + 1..], es, cur, ls[i + 1..k + 1])
  {
    var cur := Some(r.nameOf(ls[i]));
    assert ls[k..][0] == ls[k];
    ScanBodyLine(r, ls[k..], es, cur, ls[i + 1..k]);
    assert ls[k..][1..] == ls[k + 1..];
    assert ls[i + 1..k] + [ls[k]] == ls[i + 1..k + 1];
  }

  /** At the next header, or at the end, the block is recorded. */
  lemma {:induction false} ScanBlockEnd(r: Rules, ls: seq<String>, i: nat, es: seq<Entry>)
    requires NamedHeaders(r)
    requires i < |ls| && r.isHeader(ls[i])
    ensures var j := NextHeader(r, ls, i + 1);
            Scan(r, ls[j..], es, Some(r.nameOf(ls[i])), ls[i + 1..j]) == Blocks(r, ls, i, es)
    decreases |ls| - i, 0
  {
    var j := NextHeader(r, ls, i + 1);
    var es1 := Close(r, es, Some(r.nameOf(ls[i])), ls[i + 1..j]);
    if j < |ls| {
      ScanHeaderLine(r, ls[j..], es, Some(r.nameOf(ls[i])), ls[i + 1..j]);
      assert ls[j..][1..] == ls[j + 1..];
      assert ls[j + 1..j + 1] == [];
      ScanBlock(r, ls, j, j + 1, es1);
    }
  }

  // ----- consequences -----

  /** `Terminated` is the '\n'-join followed by one more '\n'. */
  lemma {:induction false} TerminatedJoin(xs: seq<String>)
    requires xs != []
    ensures Terminated(xs) == Join(xs, "\n") + "\n"
    decreases |xs|
  {
    var init := xs[..|xs| - 1];
    if |xs| > 1 {
      TerminatedJoin(init);
      JoinSnoc(init, xs[|xs| - 1], "\n");
      assert init + [xs[|xs| - 1]] == xs;
    }
  }

  /** Without any header line, every line is preamble. */
  lemma PreambleOnly(r: Rules, ls: seq<String>)
    requires ls != [] && forall k :: 0 <= k < |ls| ==> !r.isHeader(ls[k])
    ensures SectionsOf(r, ls) == [Entry(HeaderKey, SectionData(Join(ls, "\n") + "\n", None, []))]
  {
    NoHeaderNext(r, ls);
    assert ls[..|ls|] == ls;
    TerminatedJoin(ls);
    assert SectionsOf(r, ls) == Preamble(ls);
  }

  lemma NoHeaderNext(r: Rules, ls: seq<String>)
    requires forall k :: 0 <= k < |ls| ==> !r.isHeader(ls[k])
    ensures NextHeader(r, ls, 0) == |ls|
  {
  }

  /** A header followed only by lines that are no header is one block. */
  lemma OneBlock(r: Rules, ls: seq<String>)
    requires |ls| >= 2 && r.isHeader(ls[0])
    requires forall k :: 1 <= k < |ls| ==> !r.isHeader(ls[k])
    ensures SectionsOf(r, ls) == Record(r, [], r.nameOf(ls[0]), ls[1..])
  {
    assert NextHeader(r, ls, 0) == 0;
    assert NextHeader(r, ls, 1) == |ls|;
    assert ls[..0] == [];
    assert ls[1..|ls|] == ls[1..];
    assert Blocks(r, ls, 0, []) == Record(r, [], r.nameOf(ls[0]), ls[1..]);
  }

  /** Without any header line, the whole text, with a final '\n', is the
      "header" entry and there is nothing else. */
  lemma NoHeaderText(text: String)
    requires ResumeText(text)
    requires forall k :: 0 <= k < |Split(text, '\n')| ==> !IsSectionHeader(Split(text, '\n')[k])
    ensures ExtractSections(text) == [Entry(HeaderKey, SectionData(text + "\n", None, []))]
  {
    var ls := Split(text, '\n');
    ExtractSectionsByBlocks(text);
    assert forall k :: 0 <= k < |ls| ==> !Legacy.isHeader(ls[k]);
    PreambleOnly(Legacy, ls);
    assert Join(ls, "\n") == text;
  }

  /** A header line followed by lines none of which is a header gives exactly
      one section: named by the stripped header, numbered 0, holding those
      lines (even when they are all blank). */
  lemma OneSection(h: String, body: String)
    requires NoChar(h, '\n') && IsSectionHeader(h) && ResumeText(h + "\n" + body)
    requires forall k :: 0 <= k < |Split(body, '\n')| ==> !IsSectionHeader(Split(body, '\n')[k])
    ensures ExtractSections(h + "\n" + body)
            == [Entry(Strip(h), SectionData(body, Some(0), ExtractBulletPoints(body)))]
  {
    var text := h + "\n" + body;
    var ls := Split(text, '\n');
    var bs := Split(body, '\n');
    SplitNoSep(h, '\n');
    SplitAround(h, body, '\n');
    assert ls == [h] + bs;
    assert forall k :: 1 <= k < |ls| ==> ls[k] == bs[k - 1];
    ExtractSectionsByBlocks(text);
    OneBlock(Legacy, ls);
    assert ls[1..] == bs;
  }

  /** Recording blocks keeps the keys unique. */
  lemma {:induction false} BlocksUnique(r: Rules, ls: seq<String>, i: nat, es: seq<Entry>)
    requires i < |ls| && r.isHeader(ls[i])
    requires UniqueKeys(es)
    ensures UniqueKeys(Blocks(r, ls, i, es))
    decreases |ls| - i
  {
    var j := NextHeader(r, ls, i + 1);
    var es1 := es;
    if i + 1 < j {
      var c := Join(ls[i + 1..j], "\n");
      var e := Entry(r.nameOf(ls[i]), SectionData(c, Some(|es| * 10), r.bullets(c)));
      PutMembers(es, e);
      es1 := Put(es, e);
    }
    if j < |ls| {
      BlocksUnique(r, ls, j, es1);
    }
  }

  /** For any rules, the block-by-block result never holds a key twice. */
  lemma SectionsUnique(r: Rules, ls: seq<String>)
    ensures UniqueKeys(SectionsOf(r, ls))
  {
    var h := NextHeader(r, ls, 0);
    if h < |ls| {
      BlocksUnique(r, ls, h, Preamble(ls[..h]));
    }
  }

  /** The dictionary never holds a key twice. */
  lemma ExtractSectionsUnique(text: String)
    requires ResumeText(text)
    ensures UniqueKeys(ExtractSections(text))
  {
    ExtractSectionsByBlocks(text);
    SectionsUnique(Legacy, Split(text, '\n'));
  }

  /** No line of the entry's content passes the header test. */
  ghost predicate HeaderFree(isHeader: String -> bool, x: Entry) {
    var cs := Split(x.data.content, '\n');
    forall k :: 0 <= k < |cs| ==> !isHeader(cs[k])
  }

  /** The lines of a recorded block are never header lines. */
  lemma {:induction false} BlocksHeaderFree(r: Rules, ls: seq<String>, i: nat, es: seq<Entry>)
    requires forall k :: 0 <= k < |ls| ==> NoChar(ls[k], '\n')
    requires i < |ls| && r.isHeader(ls[i])
    requires forall x :: x in es ==> HeaderFree(r.isHeader, x)
    ensures forall x :: x in Blocks(r, ls, i, es) ==> HeaderFree(r.isHeader, x)
    decreases |ls| - i
  {
    var j := NextHeader(r, ls, i + 1);
    var es1 := es;
    if i + 1 < j {
      var lines := ls[i + 1..j];
      var c := Join(lines, "\n");
      var e := Entry(r.nameOf(ls[i]), SectionData(c, Some(|es| * 10), r.bullets(c)));
      SplitJoin(lines, '\n');
      assert HeaderFree(r.isHeader, e);
      PutMembers(es, e);
      es1 := Put(es, e);
    }
    if j < |ls| {
      BlocksHeaderFree(r, ls, j, es1);
    }
  }

  /** The preamble's lines, and the empty piece after its final '\n', are
      no header lines when the empty line is none. */
  lemma PreambleHeaderFree(isHeader: String -> bool, pre: seq<String>)
    requires !isHeader([])
    requires forall k :: 0 <= k < |pre| ==> NoChar(pre[k], '\n') && !isHeader(pre[k])
    ensures forall x :: x in Preamble(pre) ==> HeaderFree(isHeader, x)
  {
    if pre != [] {
      var t := Join(pre, "\n");
      TerminatedJoin(pre);
      SplitJoin(pre, '\n');
      SplitAround(t, [], '\n');
      assert t + "\n" == t + "\n" + [];
    }
  }

  /** For any rules, no entry's content holds a header line. */
  lemma SectionsHeaderFree(r: Rules, ls: seq<String>)
    requires !r.isHeader([])
    requires forall k :: 0 <= k < |ls| ==> NoChar(ls[k], '\n')
    ensures forall x :: x in SectionsOf(r, ls) ==> HeaderFree(r.isHeader, x)
  {
    var h := NextHeader(r, ls, 0);
    PreambleHeaderFree(r.isHeader, ls[..h]);
    if h < |ls| {
      BlocksHeaderFree(r, ls, h, Preamble(ls[..h]));
    }
  }

  /** No section's content, nor the "header" entry's, holds a header line:
      header lines only ever open sections. */
  lemma ContentHeaderFree(text: String)
    requires ResumeText(text)
    ensures forall x :: x in ExtractSections(text) ==> HeaderFree(IsSectionHeader, x)
  {
    ExtractSectionsByBlocks(text);
    HeaderNotBlank([]);
    SectionsHeaderFree(Legacy, Split(text, '\n'));
  }
}
