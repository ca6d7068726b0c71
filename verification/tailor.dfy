/** The loop of `tailor_resume_file`: for "Work Experience" and then
    "Projects", take the section body out of the current text, skip it when
    it is blank or holds no bullet line, and otherwise align its bullets,
    splice them back into the body and put the body back into the text.

    Loading the resume is left to the caller, who passes its text; the
    aligner's language model is the function `rw` of `Align`. */
module Tailor {
  import opened Text
  import opened Sections
  import opened Bullets
  import opened Align
  import SectionFixes

  /** A section name is ASCII, so that IGNORECASE compares it letter by letter. */
  type SectionName = s: String | IsAscii(s) witness []

  const WorkExperience: SectionName := "Work Experience"
  const Projects: SectionName := "Projects"

  /** The sections the loop visits, in this order. */
  const SectionNames: seq<SectionName> := [WorkExperience, Projects]

  /** One turn of the loop for the section `name`. */
  function TailorSection(t: String, name: SectionName, jd: String, rw: (String, String) -> String): String
  {
    var body := ExtractSection(t, name);
    if Strip(body) == [] then t
    else
      SplitNoSep(body, '\n');
      var olds := ExtractBullets(body);
      if olds == [] then t
      else ReplaceSection(t, name, ReplaceBullets(body, AlignBullets(jd, olds, rw)))
  }

  /** The loop over `names`, each turn working on the text the previous
      turn produced. */
  function TailorAll(t: String, names: seq<SectionName>, jd: String, rw: (String, String) -> String): String
    decreases |names|
  {
    if names == [] then t
    else TailorAll(TailorSection(t, names[0], jd, rw), names[1..], jd, rw)
  }

  /** `tailor_resume_file` after the resume has been loaded. */
  function TailorResume(t: String, jd: String, rw: (String, String) -> String): String
  {
    TailorAll(t, SectionNames, jd, rw)
  }

  /** A section body is one line, so its bullets are the body itself when it
      is a bullet line and nothing otherwise; and a bullet line is never
      blank. */
  lemma BodyBullets(body: String)
    requires NoChar(body, '\n')
    ensures NoDanglingMarker(body)
    ensures ExtractBullets(body) == if IsBulletLine(body) then [body] else []
    ensures IsBulletLine(body) ==> Strip(body) != []
  {
    SplitNoSep(body, '\n');
    var r := ExtractBullets(body);
    if IsBulletLine(body) {
      assert Rank([body], 0) == 0;
      BulletNotBlank(body);
    }
  }

  /** The marker of a bullet line survives `strip`. */
  lemma BulletNotBlank(b: String)
    requires IsBulletLine(b)
    ensures Strip(b) != []
  {
    StripEmpty(b);
  }

  /** Both skip rules come to one: the turn leaves the text alone exactly
      when the body is not a bullet line. */
  lemma SkipRule(t: String, name: SectionName)
    ensures var body := ExtractSection(t, name);
            NoDanglingMarker(body)
            && ((Strip(body) == [] || ExtractBullets(body) == []) <==> !IsBulletLine(body))
  {
    BodyBullets(ExtractSection(t, name));
  }

  /** A turn whose body is not a bullet line changes nothing; in particular
      a section whose pattern never matches. */
  lemma TailorSectionSkips(t: String, name: SectionName, jd: String, rw: (String, String) -> String)
    requires !IsBulletLine(ExtractSection(t, name))
    ensures TailorSection(t, name, jd, rw) == t
  {
    SkipRule(t, name);
  }

  /** Where the pattern never matches, the turn changes nothing. */
  lemma TailorSectionNoMatch(t: String, name: SectionName, jd: String, rw: (String, String) -> String)
    requires NoMatchFrom(t, name, 0)
    ensures TailorSection(t, name, jd, rw) == t
  {
    TailorSectionSkips(t, name, jd, rw);
  }

  /** A body that is a bullet line with no line boundary goes to the aligner
      as the only bullet, and its aligned form becomes the new body of every
      match: the first match keeps its header and is followed by that aligned
      bullet. */
  lemma TailorSectionAligns(t: String, name: SectionName, jd: String, rw: (String, String) -> String)
    requires var body := ExtractSection(t, name); IsBulletLine(body) && NoBreak(body)
    ensures var body := ExtractSection(t, name);
            var r := TailorSection(t, name, jd, rw);
            && r == ReplaceSection(t, name, AlignOne(jd, body, rw))
            && forall s :: IsFirstMatch(t, name, 0, s) ==> StartsWith(r, t[..s.bodyStart] + AlignOne(jd, body, rw))
  {
    var body := ExtractSection(t, name);
    BodyBullets(body);
    var a := AlignBullets(jd, [body], rw);
    assert a == [AlignOne(jd, body, rw)];
    LinesOfLine(body);
    OneLineSplice(body, a[0]);
  }

  /** Splicing one new bullet over a single bullet line gives that bullet. */
  lemma OneLineSplice(l: String, b: String)
    requires IsBulletLine(l) && l != [] && Lines(l) == [l]
    ensures ReplaceBullets(l, [b]) == b
  {
    SpliceShape([l], [b]);
    SpliceLine([l], [b], 0, 0);
    ConsumedCount([l], [b], 0);
  }

  /** With a model that echoes its input, a section matched once whose body
      is a one-line bullet without trailing whitespace and whose core does
      not begin with the label comes out unchanged. */
  lemma TailorSectionEcho(t: String, name: SectionName, jd: String, rw: (String, String) -> String)
    requires |Matches(t, name, 0)| == 1
    requires var body := ExtractSection(t, name); EchoStable(body) && NoBreak(body)
    requires forall c :: rw(jd, c) == c
    ensures TailorSection(t, name, jd, rw) == t
  {
    var body := ExtractSection(t, name);
    TailorSectionAligns(t, name, jd, rw);
    AlignOneEcho(jd, body, rw);
    ReplaceExtractedSection(t, name);
  }

  /** With the same echoing model, a section matched twice with different
      bodies does not come out unchanged: the first body is written over
      the second. */
  lemma TailorSectionEchoDuplicate(t: String, name: SectionName, jd: String, rw: (String, String) -> String)
    requires var ms := Matches(t, name, 0);
             |ms| >= 2 && t[ms[0].bodyStart..ms[0].end] != t[ms[1].bodyStart..ms[1].end]
    requires var body := ExtractSection(t, name); EchoStable(body) && NoBreak(body)
    requires forall c :: rw(jd, c) == c
    ensures TailorSection(t, name, jd, rw) != t
  {
    var body := ExtractSection(t, name);
    TailorSectionAligns(t, name, jd, rw);
    AlignOneEcho(jd, body, rw);
    SectionFixes.EchoOverwritesLaterSection(t, name);
  }

  /** The two turns run in order: "Projects" is looked up in the text the
      "Work Experience" turn produced. */
  lemma TailorResumeOrder(t: String, jd: String, rw: (String, String) -> String)
    ensures TailorResume(t, jd, rw)
            == TailorSection(TailorSection(t, WorkExperience, jd, rw), Projects, jd, rw)
  {
    var w := TailorSection(t, WorkExperience, jd, rw);
    assert SectionNames[1..] == [Projects];
    assert TailorAll(w, [Projects], jd, rw) == TailorAll(TailorSection(w, Projects, jd, rw), [], jd, rw);
  }

  /** If neither section's body is a bullet line, the resume is returned as
      it was loaded; in particular when neither pattern matches. */
  lemma TailorResumeUnchanged(t: String, jd: String, rw: (String, String) -> String)
    requires !IsBulletLine(ExtractSection(t, WorkExperience))
    requires !IsBulletLine(ExtractSection(t, Projects))
    ensures TailorResume(t, jd, rw) == t
  {
    TailorResumeOrder(t, jd, rw);
    TailorSectionSkips(t, WorkExperience, jd, rw);
    TailorSectionSkips(t, Projects, jd, rw);
  }
}
