/** The loop of `tailor_resume_file` on the corrected section pattern and
    the corrected splice: a section body may span several lines, a body
    followed by the final newline is found, and only the first section of a
    name is written. With a model that echoes its input, this loop gives
    every resume back unchanged, which the loop as written does not. */
module TailorFixes {
  import opened Text
  import opened Bullets
  import opened Align
  import opened Tailor
  import opened SectionFixes

  /** A body `extract_bullets` reads line by line: no line but the last is
      a marker with nothing after it. */
  predicate Tailorable(t: String, name: SectionName) {
    NoDanglingMarker(ExtractSectionFixed(t, name))
  }

  /** One turn of the corrected loop for the section `name`. */
  function TailorSectionFixed(t: String, name: SectionName, jd: String, rw: (String, String) -> String): String
    requires Tailorable(t, name)
  {
    var body := ExtractSectionFixed(t, name);
    if Strip(body) == [] then t
    else
      var olds := ExtractBullets(body);
      if olds == [] then t
      else ReplaceSectionFixed(t, name, ReplaceBullets(body, AlignBullets(jd, olds, rw)))
  }

  /** The corrected loop: "Work Experience", then "Projects" in the text the
      first turn produced. */
  function TailorResumeFixed(t: String, jd: String, rw: (String, String) -> String): String
    requires Tailorable(t, WorkExperience)
    requires Tailorable(TailorSectionFixed(t, WorkExperience, jd, rw), Projects)
  {
    TailorSectionFixed(TailorSectionFixed(t, WorkExperience, jd, rw), Projects, jd, rw)
  }

  /** A body that comes back from the aligner and the splice as it went in
      under an echoing model: '\n' is its only line boundary, it does not
      end with a newline, and every bullet line in it is echo-stable. */
  predicate EchoBody(body: String) {
    && OnlyNewlineBreaks(body) && NoDanglingMarker(body)
    && (body == [] || body[|body| - 1] != '\n')
    && forall i :: 0 <= i < |ExtractBullets(body)| ==> EchoStable(ExtractBullets(body)[i])
  }

  /** With a model that returns its input, a turn of the corrected loop
      leaves the resume unchanged, however many lines the body has and
      however many sections share the name. */
  lemma TailorSectionFixedEcho(t: String, name: SectionName, jd: String, rw: (String, String) -> String)
    requires EchoBody(ExtractSectionFixed(t, name))
    requires forall c :: rw(jd, c) == c
    ensures Tailorable(t, name) && TailorSectionFixed(t, name, jd, rw) == t
  {
    var body := ExtractSectionFixed(t, name);
    if Strip(body) != [] && ExtractBullets(body) != [] {
      var olds := ExtractBullets(body);
      AlignBulletsEcho(jd, olds, rw);
      ReplaceOwnBullets(body);
      ReplaceFixedExtracted(t, name);
    }
  }

  /** ... and so does the whole corrected loop. */
  lemma TailorResumeFixedEcho(t: String, jd: String, rw: (String, String) -> String)
    requires EchoBody(ExtractSectionFixed(t, WorkExperience))
    requires EchoBody(ExtractSectionFixed(t, Projects))
    requires forall c :: rw(jd, c) == c
    ensures Tailorable(t, WorkExperience)
    ensures Tailorable(TailorSectionFixed(t, WorkExperience, jd, rw), Projects)
    ensures TailorResumeFixed(t, jd, rw) == t
  {
    TailorSectionFixedEcho(t, WorkExperience, jd, rw);
    TailorSectionFixedEcho(t, Projects, jd, rw);
  }

  /** The loop as written never reaches the bullets of `TwoLineText`: the
      section is not found, so the resume comes back as it was, whatever
      the model says. */
  lemma TwoLineUntouched(jd: String, rw: (String, String) -> String)
    ensures TailorSection(TwoLineText, Projects, jd, rw) == TwoLineText
  {
    TwoLineExample();
    TailorSectionSkips(TwoLineText, Projects, jd, rw);
  }
}
