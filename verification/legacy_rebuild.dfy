/** The improvement and rebuild steps of the older pipeline in
    `resume_tailor.py`: `improve_section_bullets` with its fallback, the
    choice of target sections in `process_resume`, and `rebuild_resume`.

    The improvement chain and the JSON parsing of its reply are one function
    parameter that gives `None` when either raises.

    `rebuild_resume` searches and substitutes each pattern with
    `re.IGNORECASE`; `FoldAt` is that comparison exactly when the pattern
    and the text are in the alphabet of `ResumeText`, which is what
    `Admissible` asks of the section contents and the improvements. */
module LegacyRebuild {
  import opened Text
  import opened Options
  import opened LegacySections

  datatype BulletPointImprovement = BulletPointImprovement(
    original: String, improved: String, reasoning: String, keywordsAdded: seq<String>)

  datatype SectionImprovements = SectionImprovements(
    sectionName: String, improvements: seq<BulletPointImprovement>)

  /** The improvement chain followed by the parsing of its reply: bullets
      text, job description and section name in, `None` when the call or
      the parsing raises. */
  type Chain = (String, String, String) -> Option<SectionImprovements>

  // ----- improve_section_bullets -----

  const FallbackReason: String := "No changes made due to processing error"

  /** Each bullet behind the glyph and a space. */
  function Marked(bps: seq<String>): seq<String> {
    seq(|bps|, i requires 0 <= i < |bps| => G + " " + bps[i])
  }

  /** The bullets as sent to the chain, one per line. */
  function BulletsText(bps: seq<String>): String {
    Join(Marked(bps), "\n")
  }

  /** Bullets without a line break come back from the bullets text line by line. */
  lemma BulletsTextLines(bps: seq<String>)
    requires bps != [] && forall i :: 0 <= i < |bps| ==> NoChar(bps[i], '\n')
    ensures Split(BulletsText(bps), '\n') == Marked(bps)
  {
    var m := Marked(bps);
    forall i | 0 <= i < |m|
      ensures NoChar(m[i], '\n')
    {
      var a := G + " ";
      assert m[i] == a + bps[i];
      forall j | 0 <= j < |m[i]|
        ensures m[i][j] != '\n'
      {
        if j < |a| {
          assert m[i][j] == a[j];
        } else {
          assert m[i][j] == bps[i][j - |a|];
        }
      }
    }
    SplitJoin(m, '\n');
  }

  /** Each bullet paired with itself and no keywords. */
  predicate Unchanged(imps: seq<BulletPointImprovement>, bps: seq<String>) {
    && |imps| == |bps|
    && forall i :: 0 <= i < |bps| ==>
         && imps[i].original == bps[i] && imps[i].improved == bps[i]
         && imps[i].reasoning == FallbackReason && imps[i].keywordsAdded == []
  }

  /** The improvements returned when the chain fails. */
  function Fallback(bps: seq<String>): (r: seq<BulletPointImprovement>)
    ensures Unchanged(r, bps)
  {
    if bps == [] then []
    else [BulletPointImprovement(bps[0], bps[0], FallbackReason, [])] + Fallback(bps[1..])
  }

  /** `improve_section_bullets`: no bullets need no call; a failed call
      keeps every bullet as it is, in order. */
  function ImproveSectionBullets(name: String, bps: seq<String>, jd: String, chain: Chain): (r: SectionImprovements)
    ensures bps == [] ==> r == SectionImprovements(name, [])
    ensures bps != [] && chain(BulletsText(bps), jd, name).None? ==>
              r.sectionName == name && Unchanged(r.improvements, bps)
    ensures bps != [] && chain(BulletsText(bps), jd, name).Some? ==>
              r == chain(BulletsText(bps), jd, name).value
  {
    if bps == [] then SectionImprovements(name, [])
    else match chain(BulletsText(bps), jd, name)
      case Some(si) => si
      case None => SectionImprovements(name, Fallback(bps))
  }

  // ----- the target sections of process_resume -----

  const TargetSections: seq<String> :=
    ["work experience", "professional experience", "experience", "projects", "personal projects"]

  /** The lower-cased name holds one of the targets. */
  predicate IsTarget(name: String) {
    FoundAny(Lower(name), TargetSections)
  }

  /** Every target holds "experience" or "projects", so those two decide. */
  lemma TargetIff(name: String)
    ensures IsTarget(name) <==> Contains(Lower(name), "experience") || Contains(Lower(name), "projects")
  {
    var s := Lower(name);
    FoundAnyIff(s, TargetSections);
    if k :| 0 <= k < |TargetSections| && Contains(s, TargetSections[k]) {
      var w, off := TargetWord(k);
      Within(s, TargetSections[k], w, off);
    }
    if Contains(s, "experience") {
      assert Contains(s, TargetSections[2]);
    }
    if Contains(s, "projects") {
      assert Contains(s, TargetSections[3]);
    }
  }

  lemma TargetWord(k: nat) returns (w: String, off: nat)
    requires k < |TargetSections|
    ensures (w == "experience" || w == "projects") && OccursAt(TargetSections[k], w, off)
  {
    var u;
    if k == 0 {
      u, w := "work ", "experience";
    } else if k == 1 {
      u, w := "professional ", "experience";
    } else if k == 2 {
      u, w := "", "experience";
    } else if k == 3 {
      u, w := "", "projects";
    } else {
      u, w := "personal ", "projects";
    }
    assert TargetSections[k] == u + w + [];
    Infix(u, w, []);
    off := |u|;
  }

  /** One entry of the improvements dictionary. */
  datatype Asked = Asked(name: String, si: SectionImprovements)

  /** A target section with at least one bullet point. */
  predicate Wanted(e: Entry) {
    IsTarget(e.name) && e.data.bulletPoints != []
  }

  function AskFor(e: Entry, jd: String, chain: Chain): Asked {
    Asked(e.name, ImproveSectionBullets(e.name, e.data.bulletPoints, jd, chain))
  }

  /** The loop of `process_resume` that fills the improvements dictionary.
      The section keys are distinct (`ExtractSectionsUnique`), so assigning
      into the dictionary appends. */
  function ImproveTargets(es: seq<Entry>, jd: String, chain: Chain): seq<Asked>
  {
    if es == [] then []
    else (if Wanted(es[0]) then [AskFor(es[0], jd, chain)] else []) + ImproveTargets(es[1..], jd, chain)
  }

  /** Exactly the wanted sections are asked about. */
  lemma {:induction false} ImproveTargetsIff(es: seq<Entry>, jd: String, chain: Chain, x: Asked)
    ensures x in ImproveTargets(es, jd, chain) <==> exists k :: 0 <= k < |es| && Wanted(es[k]) && x == AskFor(es[k], jd, chain)
  {
    if es != [] {
      var h := if Wanted(es[0]) then [AskFor(es[0], jd, chain)] else [];
      var t := ImproveTargets(es[1..], jd, chain);
      assert ImproveTargets(es, jd, chain) == h + t;
      ImproveTargetsIff(es[1..], jd, chain, x);
      if x in t {
        var k :| 0 <= k < |es[1..]| && Wanted(es[1..][k]) && x == AskFor(es[1..][k], jd, chain);
        assert es[k + 1] == es[1..][k];
      }
      if k :| 1 <= k < |es| && Wanted(es[k]) && x == AskFor(es[k], jd, chain) {
        assert es[1..][k - 1] == es[k];
      }
    }
  }

  /** The elements of `xs` that `keep` holds of, each mapped through `f`, in
      order. */
  function KeepMap<T, U>(xs: seq<T>, keep: T -> bool, f: T -> U): seq<U>
  {
    if xs == [] then []
    else (if keep(xs[0]) then [f(xs[0])] else []) + KeepMap(xs[1..], keep, f)
  }

  /** The indices, counted from `from`, of the elements of `xs` that `keep`
      holds of. */
  function KeptAt<T>(xs: seq<T>, keep: T -> bool, from: nat): seq<nat>
  {
    if xs == [] then []
    else (if keep(xs[0]) then [from] else []) + KeptAt(xs[1..], keep, from + 1)
  }

  /** The improvements loop keeps the wanted sections and asks about each. */
  lemma {:induction false} ImproveTargetsKeepMap(es: seq<Entry>, jd: String, chain: Chain)
    ensures ImproveTargets(es, jd, chain) == KeepMap(es, Wanted, e => AskFor(e, jd, chain))
  {
    if es != [] {
      ImproveTargetsKeepMap(es[1..], jd, chain);
    }
  }

  /** Entry `i` of the result comes from the kept element at the `i`-th kept
      index. */
  lemma {:induction false} KeptAtPicks<T, U>(xs: seq<T>, keep: T -> bool, f: T -> U, from: nat)
    ensures var ks, r := KeptAt(xs, keep, from), KeepMap(xs, keep, f);
            && |ks| == |r|
            && forall i :: 0 <= i < |ks| ==>
                 from <= ks[i] < from + |xs| && keep(xs[ks[i] - from]) && r[i] == f(xs[ks[i] - from])
  {
    if xs != [] {
      KeptAtPicks(xs[1..], keep, f, from + 1);
      var ks, r := KeptAt(xs, keep, from), KeepMap(xs, keep, f);
      var hk: seq<nat> := if keep(xs[0]) then [from] else [];
      var h := if keep(xs[0]) then [f(xs[0])] else [];
      var up, t := KeptAt(xs[1..], keep, from + 1), KeepMap(xs[1..], keep, f);
      assert ks == hk + up && r == h + t;
      forall i | 0 <= i < |ks|
        ensures from <= ks[i] < from + |xs| && keep(xs[ks[i] - from]) && r[i] == f(xs[ks[i] - from])
      {
        if i >= |hk| {
          var n := i - |hk|;
          assert ks[i] == up[n] && r[i] == t[n];
          assert xs[up[n] - from] == xs[1..][up[n] - (from + 1)];
        }
      }
    }
  }

  /** The kept indices increase and stay at or above `from`. */
  lemma {:induction false} KeptAtIncreasing<T>(xs: seq<T>, keep: T -> bool, from: nat)
    ensures forall i, j :: 0 <= i < j < |KeptAt(xs, keep, from)| ==> from <= KeptAt(xs, keep, from)[i] < KeptAt(xs, keep, from)[j]
  {
    if xs == [] {
      assert KeptAt(xs, keep, from) == [];
    } else {
      KeptAtIncreasing(xs[1..], keep, from + 1);
      KeptAtBelow(xs[1..], keep, from + 1);
      var hk: seq<nat> := if keep(xs[0]) then [from] else [];
      var up := KeptAt(xs[1..], keep, from + 1);
      var ks := KeptAt(xs, keep, from);
      assert ks == hk + up;
      forall i, j | 0 <= i < j < |KeptAt(xs, keep, from)|
        ensures from <= KeptAt(xs, keep, from)[i] < KeptAt(xs, keep, from)[j]
      {
        var m := j - |hk|;
        assert 0 <= m < |up| && ks[j] == up[m] && from + 1 <= up[m];
        if i >= |hk| {
          var n := i - |hk|;
          assert n < m && ks[i] == up[n] && up[n] < up[m];
        }
      }
    }
  }

  /** Every kept index is at least `from`. */
  lemma {:induction false} KeptAtBelow<T>(xs: seq<T>, keep: T -> bool, from: nat)
    ensures forall i :: 0 <= i < |KeptAt(xs, keep, from)| ==> from <= KeptAt(xs, keep, from)[i]
  {
    if xs != [] {
      KeptAtBelow(xs[1..], keep, from + 1);
      var hk: seq<nat> := if keep(xs[0]) then [from] else [];
      var up := KeptAt(xs[1..], keep, from + 1);
      var ks := KeptAt(xs, keep, from);
      assert ks == hk + up;
      forall i | 0 <= i < |ks|
        ensures from <= ks[i]
      {
        if i >= |hk| {
          assert ks[i] == up[i - |hk|];
        }
      }
    }
  }

  /** Every element `keep` holds of has its index among the kept indices. */
  lemma {:induction false} KeptAtCovers<T>(xs: seq<T>, keep: T -> bool, from: nat)
    ensures forall k :: 0 <= k < |xs| && keep(xs[k]) ==> from + k in KeptAt(xs, keep, from)
  {
    if xs != [] {
      KeptAtCovers(xs[1..], keep, from + 1);
      var hk: seq<nat> := if keep(xs[0]) then [from] else [];
      var up := KeptAt(xs[1..], keep, from + 1);
      assert KeptAt(xs, keep, from) == hk + up;
      forall k | 0 <= k < |xs| && keep(xs[k])
        ensures from + k in KeptAt(xs, keep, from)
      {
        if k > 0 {
          assert xs[1..][k - 1] == xs[k];
          assert from + 1 + (k - 1) in up;
        }
      }
    }
  }

  /** One entry per wanted section, in the order of `sections`: entry `i`
      comes from the section at index `ks[i]`, the indices increase, and
      every wanted section has its index among them. `rebuild_resume`
      visits the dictionary in this order. */
  lemma ImproveTargetsInOrder(es: seq<Entry>, jd: String, chain: Chain) returns (ks: seq<nat>)
    ensures var r := ImproveTargets(es, jd, chain);
            && |ks| == |r|
            && (forall i :: 0 <= i < |ks| ==> ks[i] < |es| && Wanted(es[ks[i]]) && r[i] == AskFor(es[ks[i]], jd, chain))
            && (forall i, j :: 0 <= i < j < |ks| ==> ks[i] < ks[j])
            && (forall k :: 0 <= k < |es| && Wanted(es[k]) ==> k in ks)
  {
    var ask := e => AskFor(e, jd, chain);
    ks := KeptAt(es, Wanted, 0);
    ImproveTargetsKeepMap(es, jd, chain);
    KeptAtPicks(es, Wanted, ask, 0);
    KeptAtIncreasing(es, Wanted, 0);
    KeptAtCovers(es, Wanted, 0);
  }

  // ----- substitution -----

  /** `p` at `i`: case-insensitively as `re` with IGNORECASE compares, or exactly. */
  predicate Hit(s: String, p: String, i: nat, fold: bool) {
    if fold then FoldAt(s, p, i) else OccursAt(s, p, i)
  }

  /** Every occurrence of the non-empty `p` replaced by `x`, scanning from
      the left and resuming after each replaced occurrence. */
  function SubAll(s: String, p: String, x: String, fold: bool): String
    requires p != []
    decreases |s|
  {
    if s == [] then []
    else if Hit(s, p, 0, fold) then x + SubAll(s[|p|..], p, x, fold)
    else [s[0]] + SubAll(s[1..], p, x, fold)
  }

  /** The empty pattern matches before every character and at the end. */
  function Interleave(s: String, x: String): String
  {
    if s == [] then x else x + [s[0]] + Interleave(s[1..], x)
  }

  /** `re.sub(p, x, s, flags=re.IGNORECASE)` for a literal pattern and a
      replacement without a backslash. */
  function ReSub(s: String, p: String, x: String): String {
    if p == [] then Interleave(s, x) else SubAll(s, p, x, true)
  }

  /** `s.replace(from, to)`. */
  function Replace(s: String, from: String, to: String): String {
    if from == [] then Interleave(s, to) else SubAll(s, from, to, false)
  }

  /** `re.search(p, s, re.IGNORECASE)` for a literal pattern: tried at
      each position from the left. */
  predicate Found(s: String, p: String) {
    FoundFrom(s, p, 0)
  }

  predicate FoundFrom(s: String, p: String, i: nat)
    decreases |s| - i
  {
    i <= |s| && (FoldAt(s, p, i) || FoundFrom(s, p, i + 1))
  }

  /** The search succeeds exactly when the pattern is at some position. */
  lemma {:induction false} FoundFromIff(s: String, p: String, i: nat)
    ensures FoundFrom(s, p, i) <==> exists k :: i <= k <= |s| && FoldAt(s, p, k)
    decreases |s| - i
  {
    if i <= |s| {
      FoundFromIff(s, p, i + 1);
      if k :| i <= k <= |s| && FoldAt(s, p, k) {
        if k > i {
          assert i + 1 <= k <= |s| && FoldAt(s, p, k);
        }
      }
    }
  }

  /** A hit at `i + 1` of `s` is a hit at `i` of its tail. */
  lemma HitShift(s: String, p: String, i: nat, fold: bool)
    requires s != []
    ensures Hit(s[1..], p, i, fold) <==> Hit(s, p, i + 1, fold)
  {
    if i + 1 + |p| <= |s| {
      if fold {
        assert forall j :: 0 <= j < |p| ==> (FoldEq(p[j], s[1..][i + j]) <==> FoldEq(p[j], s[i + 1 + j]));
      } else {
        assert s[1..][i..i + |p|] == s[i + 1..i + 1 + |p|];
      }
    }
  }

  /** Where `p` never occurs nothing is replaced. */
  lemma {:induction false} SubNoHit(s: String, p: String, x: String, fold: bool)
    requires p != [] && forall i :: 0 <= i <= |s| ==> !Hit(s, p, i, fold)
    ensures SubAll(s, p, x, fold) == s
    decreases |s|
  {
    if s != [] {
      forall i | 0 <= i <= |s[1..]|
        ensures !Hit(s[1..], p, i, fold)
      {
        HitShift(s, p, i, fold);
      }
      SubNoHit(s[1..], p, x, fold);
      assert [s[0]] + s[1..] == s;
    }
  }

  /** `p` is nowhere before `i`. */
  predicate NoHitBefore(s: String, p: String, i: nat, fold: bool) {
    forall j :: 0 <= j < i ==> !Hit(s, p, j, fold)
  }

  lemma NoHitShift(s: String, p: String, i: nat, fold: bool)
    requires s != [] && 0 < i && NoHitBefore(s, p, i, fold)
    ensures NoHitBefore(s[1..], p, i - 1, fold)
  {
    forall j | 0 <= j < i - 1
      ensures !Hit(s[1..], p, j, fold)
    {
      HitShift(s, p, j, fold);
    }
  }

  /** The leftmost occurrence is the first one replaced, and the scan
      resumes right after it. */
  lemma {:induction false} SubFirstHit(s: String, p: String, x: String, fold: bool, i: nat)
    requires p != [] && Hit(s, p, i, fold) && NoHitBefore(s, p, i, fold)
    ensures SubAll(s, p, x, fold) == s[..i] + x + SubAll(s[i + |p|..], p, x, fold)
    decreases i
  {
    if i == 0 {
      assert s[..0] == [];
    } else {
      var t := s[1..];
      NoHitShift(s, p, i, fold);
      HitShift(s, p, i - 1, fold);
      SubFirstHit(t, p, x, fold, i - 1);
      SubMiss(s, p, x, fold);
      assert t[i - 1 + |p|..] == s[i + |p|..];
      Regroup(s, i, x, SubAll(s[i + |p|..], p, x, fold));
    }
  }

  lemma Regroup(s: String, i: nat, x: String, rest: String)
    requires 0 < i <= |s|
    ensures [s[0]] + (s[1..][..i - 1] + x + rest) == s[..i] + x + rest
  {
    assert [s[0]] + s[1..][..i - 1] == s[..i];
  }

  lemma SubMiss(s: String, p: String, x: String, fold: bool)
    requires p != [] && s != [] && !Hit(s, p, 0, fold)
    ensures SubAll(s, p, x, fold) == [s[0]] + SubAll(s[1..], p, x, fold)
  {
  }

  /** Replacing a string by itself changes nothing. */
  lemma ReplaceSelf(s: String, p: String)
    ensures Replace(s, p, p) == s
  {
    if p == [] {
      InterleaveEmpty(s);
    } else {
      SubSelf(s, p);
    }
  }

  lemma {:induction false} InterleaveEmpty(s: String)
    ensures Interleave(s, []) == s
  {
    if s != [] {
      InterleaveEmpty(s[1..]);
      assert [s[0]] + s[1..] == s;
    }
  }

  lemma {:induction false} SubSelf(s: String, p: String)
    requires p != []
    ensures SubAll(s, p, p, false) == s
    decreases |s|
  {
    if s != [] {
      if OccursAt(s, p, 0) {
        SubSelf(s[|p|..], p);
        assert s[..|p|] + s[|p|..] == s;
      } else {
        SubSelf(s[1..], p);
        assert [s[0]] + s[1..] == s;
      }
    }
  }

  // ----- rebuild_resume -----

  /** The characters `lstrip` removes from the front of an original bullet:
      those of the glyph, the dash, the asterisk and the space. */
  const BulletChars: set<char> := {'\U{201A}', '\U{C4}', '\U{A2}', '-', '*', ' '}

  /** `s.lstrip(cs)`. */
  function LStripSet(s: String, cs: set<char>): (r: String)
    ensures |r| <= |s| && r == s[|s| - |r|..]
    ensures forall i :: 0 <= i < |s| - |r| ==> s[i] in cs
    ensures r == [] || r[0] !in cs
  {
    if s != [] && s[0] in cs then LStripSet(s[1..], cs) else s
  }

  /** The bullet text an original is searched for. */
  function CoreOf(original: String): String {
    Strip(LStripSet(original, BulletChars))
  }

  /** The four forms a bullet is searched in, in order, each as the literal
      text its escaped pattern matches. */
  function Patterns(core: String): seq<String> {
    [G + " " + core, "- " + core, "* " + core, core]
  }

  /** As written the third pattern begins with an unescaped `*`, which `re`
      rejects with "nothing to repeat": only the first two patterns can be
      searched, and reaching the third raises. */
  const UsableAsWritten: nat := 2

  /** With the `*` escaped all four patterns are searched. */
  const UsableIntended: nat := 4

  /** The first pattern found is replaced everywhere by `rep`; a pattern at
      or past `usable` raises instead of being searched; with none found the
      text stays. */
  function TrySub(c: String, pats: seq<String>, rep: String, usable: nat): Option<String>
  {
    if pats == [] then Some(c)
    else if usable == 0 then None
    else if Found(c, pats[0]) then Some(ReSub(c, pats[0], rep))
    else TrySub(c, pats[1..], rep, usable - 1)
  }

  /** One improvement applied to a section's content. */
  function ApplyImprovement(c: String, imp: BulletPointImprovement, usable: nat): Option<String> {
    TrySub(c, Patterns(CoreOf(imp.original)), G + " " + imp.improved, usable)
  }

  /** The improvements of one section applied in turn. */
  function ApplyAll(c: String, imps: seq<BulletPointImprovement>, usable: nat): Option<String>
    decreases |imps|
  {
    if imps == [] then Some(c)
    else match ApplyImprovement(c, imps[0], usable)
      case None => None
      case Some(c1) => ApplyAll(c1, imps[1..], usable)
  }

  /** Everything `rebuild_resume` reads is in the modelled alphabet, and no
      improved bullet holds a backslash, so the substitution template is
      taken literally. */
  ghost predicate Admissible(secs: seq<Entry>, asked: seq<Asked>) {
    && (forall k :: 0 <= k < |secs| ==> ResumeText(secs[k].data.content))
    && (forall k, j :: 0 <= k < |asked| && 0 <= j < |asked[k].si.improvements| ==>
          && ResumeText(asked[k].si.improvements[j].original)
          && ResumeText(asked[k].si.improvements[j].improved)
          && NoChar(asked[k].si.improvements[j].improved, '\\'))
  }

  /** The loop of `rebuild_resume`: sections not in `secs` are skipped; the
      others have their improved content put in place of every occurrence
      of their original content; `None` when a pattern raises. */
  function RebuildWith(t: String, secs: seq<Entry>, asked: seq<Asked>, usable: nat): Option<String>
    requires Admissible(secs, asked)
    decreases |asked|
  {
    if asked == [] then Some(t)
    else match Lookup(secs, asked[0].name)
      case None => RebuildWith(t, secs, asked[1..], usable)
      case Some(d) =>
        match ApplyAll(d.content, asked[0].si.improvements, usable)
          case None => None
          case Some(c) => RebuildWith(Replace(t, d.content, c), secs, asked[1..], usable)
  }

  /** `rebuild_resume` as written. */
  function RebuildResume(t: String, secs: seq<Entry>, asked: seq<Asked>): Option<String>
    requires Admissible(secs, asked)
  {
    RebuildWith(t, secs, asked, UsableAsWritten)
  }

  /** `rebuild_resume` with the third pattern escaped. */
  function RebuildIntended(t: String, secs: seq<Entry>, asked: seq<Asked>): Option<String>
    requires Admissible(secs, asked)
  {
    RebuildWith(t, secs, asked, UsableIntended)
  }

  /** The first usable pattern found is the one substituted. */
  lemma {:induction false} TrySubFirst(c: String, pats: seq<String>, rep: String, usable: nat, k: nat)
    requires k < |pats| && k < usable && Found(c, pats[k])
    requires forall j :: 0 <= j < k ==> !Found(c, pats[j])
    ensures TrySub(c, pats, rep, usable) == Some(ReSub(c, pats[k], rep))
    decreases k
  {
    if k > 0 {
      assert !Found(c, pats[0]);
      assert pats[1..][k - 1] == pats[k];
      forall j | 0 <= j < k - 1
        ensures !Found(c, pats[1..][j])
      {
        assert pats[1..][j] == pats[j + 1];
      }
      TrySubFirst(c, pats[1..], rep, usable - 1, k - 1);
    }
  }

  /** Patterns that are all usable and none found leave the text alone;
      unusable ones reached raise. */
  lemma {:induction false} TrySubNone(c: String, pats: seq<String>, rep: String, usable: nat)
    requires forall j :: 0 <= j < |pats| && j < usable ==> !Found(c, pats[j])
    ensures TrySub(c, pats, rep, usable) == if usable < |pats| then None else Some(c)
    decreases |pats|
  {
    if pats != [] && usable > 0 {
      forall j | 0 <= j < |pats[1..]| && j < usable - 1
        ensures !Found(c, pats[1..][j])
      {
        assert pats[1..][j] == pats[j + 1];
      }
      TrySubNone(c, pats[1..], rep, usable - 1);
    }
  }

  /** Improvements none of whose patterns are found leave the content as it is. */
  lemma {:induction false} ApplyAllNoMatch(c: String, imps: seq<BulletPointImprovement>)
    requires forall j, m :: 0 <= j < |imps| && 0 <= m < 4 ==> !Found(c, Patterns(CoreOf(imps[j].original))[m])
    ensures ApplyAll(c, imps, UsableIntended) == Some(c)
    decreases |imps|
  {
    if imps != [] {
      TrySubNone(c, Patterns(CoreOf(imps[0].original)), G + " " + imps[0].improved, UsableIntended);
      ApplyAllNoMatch(c, imps[1..]);
    }
  }

  /** With no improvement for a section that exists, the resume comes back
      unchanged. */
  lemma {:induction false} RebuildAbsent(t: String, secs: seq<Entry>, asked: seq<Asked>, usable: nat)
    requires Admissible(secs, asked)
    requires forall k :: 0 <= k < |asked| ==> Lookup(secs, asked[k].name).None?
    ensures RebuildWith(t, secs, asked, usable) == Some(t)
    decreases |asked|
  {
    if asked != [] {
      RebuildAbsent(t, secs, asked[1..], usable);
    }
  }

  /** When no improved bullet is found in its section, the intended rebuild
      gives back the resume unchanged. */
  lemma {:induction false} RebuildNoMatch(t: String, secs: seq<Entry>, asked: seq<Asked>)
    requires Admissible(secs, asked)
    requires forall k :: 0 <= k < |asked| && Lookup(secs, asked[k].name).Some? ==>
               var c := Lookup(secs, asked[k].name).value.content;
               var imps := asked[k].si.improvements;
               forall j, m :: 0 <= j < |imps| && 0 <= m < 4 ==> !Found(c, Patterns(CoreOf(imps[j].original))[m])
    ensures RebuildIntended(t, secs, asked) == Some(t)
    decreases |asked|
  {
    if asked != [] {
      RebuildNoMatch(t, secs, asked[1..]);
      if Lookup(secs, asked[0].name).Some? {
        var d := Lookup(secs, asked[0].name).value;
        ApplyAllNoMatch(d.content, asked[0].si.improvements);
        ReplaceSelf(t, d.content);
      }
    }
  }

  /** As written, an improvement whose bullet is in neither the glyph nor
      the dash form makes the whole rebuild raise. */
  lemma RebuildRaises(t: String, secs: seq<Entry>, asked: seq<Asked>)
    requires Admissible(secs, asked) && asked != []
    requires Lookup(secs, asked[0].name).Some? && asked[0].si.improvements != []
    requires var c := Lookup(secs, asked[0].name).value.content;
             var core := CoreOf(asked[0].si.improvements[0].original);
             !Found(c, G + " " + core) && !Found(c, "- " + core)
    ensures RebuildResume(t, secs, asked) == None
  {
    var d := Lookup(secs, asked[0].name).value;
    var imps := asked[0].si.improvements;
    PatternsRaise(d.content, CoreOf(imps[0].original), G + " " + imps[0].improved);
    ApplyAllRaises(d.content, imps, UsableAsWritten);
    RebuildStops(t, secs, asked, UsableAsWritten);
  }

  lemma PatternsRaise(c: String, core: String, rep: String)
    requires !Found(c, G + " " + core) && !Found(c, "- " + core)
    ensures TrySub(c, Patterns(core), rep, UsableAsWritten) == None
  {
    var pats := Patterns(core);
    assert pats[0] == G + " " + core && pats[1] == "- " + core;
    TrySubNone(c, pats, rep, UsableAsWritten);
  }

  lemma ApplyAllRaises(c: String, imps: seq<BulletPointImprovement>, usable: nat)
    requires imps != [] && ApplyImprovement(c, imps[0], usable) == None
    ensures ApplyAll(c, imps, usable) == None
  {
  }

  lemma RebuildStops(t: String, secs: seq<Entry>, asked: seq<Asked>, usable: nat)
    requires Admissible(secs, asked) && asked != [] && Lookup(secs, asked[0].name).Some?
    requires ApplyAll(Lookup(secs, asked[0].name).value.content, asked[0].si.improvements, usable) == None
    ensures RebuildWith(t, secs, asked, usable) == None
  {
  }

  // ----- a bullet written with an asterisk -----

  /** The section "Projects" holding the one bullet "* a", and an
      improvement of it to "b". */
  const StarText: String := "Projects\n* a"
  const StarSections: seq<Entry> := [Entry("Projects", SectionData("* a", Some(0), ["* a"]))]
  const StarImprovement: BulletPointImprovement := BulletPointImprovement("* a", "b", "", [])
  const StarAsked: seq<Asked> := [Asked("Projects", SectionImprovements("Projects", [StarImprovement]))]

  lemma StarCore()
    ensures CoreOf(StarImprovement.original) == "a"
  {
    StarStrip();
    assert Stripped("a");
    StripStripped("a");
  }

  lemma StarStrip()
    ensures LStripSet("* a", BulletChars) == "a"
  {
    StarSplit();
    assert "* "[0] in BulletChars && "* "[1] in BulletChars;
    LStripPrefix("* ", "a", BulletChars);
  }

  lemma StarSplit()
    ensures "* a" == "* " + "a"
  {
  }

  /** Characters of the set in front of a text not starting with one are all removed. */
  lemma {:induction false} LStripPrefix(u: String, v: String, cs: set<char>)
    requires forall i :: 0 <= i < |u| ==> u[i] in cs
    requires v == [] || v[0] !in cs
    ensures LStripSet(u + v, cs) == v
    decreases |u|
  {
    if u != [] {
      LStripStep(u + v, cs);
      assert (u + v)[1..] == u[1..] + v;
      LStripPrefix(u[1..], v, cs);
    } else {
      assert u + v == v;
    }
  }

  lemma LStripStep(s: String, cs: set<char>)
    requires s != [] && s[0] in cs
    ensures LStripSet(s, cs) == LStripSet(s[1..], cs)
  {
  }

  /** A pattern longer than the text is not found. */
  lemma NotFoundShort(c: String, p: String)
    requires |c| < |p|
    ensures !Found(c, p)
  {
    FoundFromIff(c, p, 0);
  }

  /** A pattern as long as the text is found only at the start. */
  lemma NotFoundFirst(c: String, p: String)
    requires |c| == |p| && p != [] && !FoldEq(p[0], c[0])
    ensures !Found(c, p)
  {
    FoundFromIff(c, p, 0);
    assert forall i :: 0 <= i <= |c| && FoldAt(c, p, i) ==> i == 0;
    assert !FoldAt(c, p, 0);
  }

  lemma StarAdmissible()
    ensures Admissible(StarSections, StarAsked)
  {
    assert ResumeText("* a") && ResumeText("b") && NoChar("b", '\\');
  }

  lemma StarLookup()
    ensures Lookup(StarSections, StarAsked[0].name) == Some(SectionData("* a", Some(0), ["* a"]))
    ensures StarAsked[0].si.improvements == [StarImprovement]
  {
  }

  /** A bullet written "* " + core is in neither the glyph nor the dash
      form, and is found in the asterisk form. */
  lemma StarMisses(core: String)
    ensures !Found("* " + core, G + " " + core) && !Found("* " + core, "- " + core)
    ensures FoldAt("* " + core, "* " + core, 0)
  {
    NotFoundShort("* " + core, G + " " + core);
    assert ("- " + core)[0] == '-' && ("* " + core)[0] == '*' && !FoldEq('-', '*');
    NotFoundFirst("* " + core, "- " + core);
  }

  lemma PatternsAt(core: String)
    ensures var pats := Patterns(core);
            |pats| == 4 && pats[0] == G + " " + core && pats[1] == "- " + core && pats[2] == "* " + core
  {
  }

  /** As written an asterisk bullet raises; as intended it is rewritten. */
  lemma StarForm(core: String, rep: String)
    ensures TrySub("* " + core, Patterns(core), rep, UsableAsWritten) == None
    ensures TrySub("* " + core, Patterns(core), rep, UsableIntended) == Some(rep)
  {
    var c := "* " + core;
    PatternsAt(core);
    StarMisses(core);
    PatternsRaise(c, core, rep);
    StarFound(c, Patterns(core), rep);
    StarSub(c, rep);
  }

  lemma StarFound(c: String, pats: seq<String>, rep: String)
    requires |pats| == 4 && pats[2] == c && FoldAt(c, c, 0)
    requires !Found(c, pats[0]) && !Found(c, pats[1])
    ensures TrySub(c, pats, rep, UsableIntended) == Some(ReSub(c, c, rep))
  {
    TrySubFirst(c, pats, rep, UsableIntended, 2);
  }

  /** As written, the rebuild of a resume with an asterisk bullet raises. */
  lemma StarRaises()
    ensures Admissible(StarSections, StarAsked) && RebuildResume(StarText, StarSections, StarAsked) == None
  {
    StarAdmissible();
    StarLookup();
    StarCore();
    StarForm("a", G + " " + "b");
    StarSplit();
    ApplyVia("* a", StarImprovement, "a", UsableAsWritten, None);
    RebuildStops(StarText, StarSections, StarAsked, UsableAsWritten);
  }

  /** With the asterisk escaped, the bullet is found and rewritten. */
  lemma StarIntended()
    ensures Admissible(StarSections, StarAsked)
    ensures RebuildIntended(StarText, StarSections, StarAsked) == Some("Projects\n" + G + " " + "b")
  {
    var rep := G + " " + "b";
    StarAdmissible();
    StarLookup();
    StarCore();
    StarForm("a", rep);
    StarSplit();
    ApplyVia("* a", StarImprovement, "a", UsableIntended, Some(rep));
    RebuildOne(StarText, StarSections, StarAsked, UsableIntended, rep);
    StarReplace(rep);
    Regroup4("Projects\n", G, " ", "b");
  }

  /** One improvement alone, applied through its core. */
  lemma ApplyVia(c: String, imp: BulletPointImprovement, core: String, usable: nat, r: Option<String>)
    requires CoreOf(imp.original) == core
    requires TrySub(c, Patterns(core), G + " " + imp.improved, usable) == r
    ensures ApplyAll(c, [imp], usable) == r
  {
  }

  lemma Regroup4(a: String, b: String, c: String, d: String)
    ensures a + (b + c + d) == a + b + c + d
  {
  }

  /** A single improved section is put in place of its original content. */
  lemma RebuildOne(t: String, secs: seq<Entry>, asked: seq<Asked>, usable: nat, c: String)
    requires Admissible(secs, asked) && |asked| == 1 && Lookup(secs, asked[0].name).Some?
    requires ApplyAll(Lookup(secs, asked[0].name).value.content, asked[0].si.improvements, usable) == Some(c)
    ensures RebuildWith(t, secs, asked, usable) == Some(Replace(t, Lookup(secs, asked[0].name).value.content, c))
  {
    assert asked[1..] == [];
  }

  lemma StarSub(c: String, rep: String)
    requires c != []
    ensures ReSub(c, c, rep) == rep
  {
    assert FoldAt(c, c, 0) && Hit(c, c, 0, true);
    assert c[|c|..] == [];
    assert SubAll(c[|c|..], c, rep, true) == [];
  }

  lemma StarReplace(rep: String)
    ensures Replace(StarText, "* a", rep) == "Projects\n" + rep
  {
    var c := "* a";
    assert OccursAt(StarText, c, 9);
    assert StarText[..9] == "Projects\n";
    forall j | 0 <= j < 9
      ensures !Hit(StarText, c, j, false)
    {
      assert StarText[j] == StarText[..9][j] != '*';
      assert StarText[j..j + 3][0] == StarText[j];
    }
    SubFirstHit(StarText, c, rep, false, 9);
    assert StarText[9 + |c|..] == [];
    assert StarText[..9] == "Projects\n";
  }
}
