/** The bullet aligner of `llm_utils.py`: each bullet is split into its marker
    prefix and a stripped core, the core goes to the language model, and the
    reply is cleaned and put back behind the prefix.

    The model and its prompt are one abstract function `rw(jd, core)` giving
    the raw reply. */
module Align {
  import opened Text
  import opened Bullets

  /** The label a model reply may echo back before the rewritten text. */
  const Label: String := "Rewritten Bullet Point:"

  /** Tabs and spaces, one marker, then one or more whitespace characters:
      what `[\t ]*(?:[-\*•])\s+` matches. */
  predicate MarkerPrefix(x: String) {
    var k := IndentEnd(x);
    k + 1 < |x| && IsMarker(x[k]) && AllSpace(x[k + 1..])
  }

  /** `align_bullet` after the model call: strip the reply, then drop one
      leading label (compared case-insensitively) with the whitespace after it.
      The result is a stripped suffix of the stripped reply; it is that reply
      itself when no label starts it, and otherwise what follows the label and
      a run of whitespace. */
  function CleanReply(reply: String): (r: String)
    ensures Stripped(r) && Cleaned(Strip(reply), r)
  {
    var s := Strip(reply);
    if FoldAt(s, Label, 0) then
      var r := TrimStart(s[|Label|..]);
      TrimmedSuffix(s, |Label|, r);
      r
    else
      UnlabelledKept(s);
      s
  }

  /** `r` is a suffix of the stripped reply `s`: all of it when no label
      starts `s`, and otherwise what follows the label and some whitespace. */
  predicate Cleaned(s: String, r: String) {
    && |r| <= |s| && r == s[|s| - |r|..]
    && (!FoldAt(s, Label, 0) ==> r == s)
    && (FoldAt(s, Label, 0) ==> |Label| + |r| <= |s| && AllSpace(s[|Label|..|s| - |r|]))
  }

  /** What `lstrip` leaves after the label, read as a piece of `s`. */
  lemma TrimmedSuffix(s: String, k: nat, r: String)
    requires k == |Label| && FoldAt(s, Label, 0) && Stripped(s)
    requires |r| <= |s| - k && r == s[k..][|s| - k - |r|..] && AllSpace(s[k..][..|s| - k - |r|])
    requires r == [] || !IsSpace(r[0])
    ensures Stripped(r) && Cleaned(s, r)
  {
    assert s[k..][..|s| - k - |r|] == s[k..|s| - |r|];
    assert r == s[|s| - |r|..];
  }

  /** Without the label, the stripped reply is kept whole. */
  lemma UnlabelledKept(s: String)
    requires !FoldAt(s, Label, 0)
    ensures Cleaned(s, s)
  {
    assert s[|s| - |s|..] == s;
  }

  /** A reply that is already stripped and does not begin with the label is
      returned as it is. */
  lemma CleanReplyKeeps(reply: String)
    requires Stripped(reply) && !FoldAt(reply, Label, 0)
    ensures CleanReply(reply) == reply
  {
    StripStripped(reply);
  }

  /** A bullet split into the prefix kept verbatim and the core sent to the model. */
  datatype Parts = Parts(prefix: String, core: String)

  /** The prefix/core split of `align_bullets_to_job`. A bullet line keeps its
      own indentation, marker and the whole whitespace run after it (which may
      cross a newline); the core is the rest of that line. Any other bullet
      gets the prefix "- " and its whole text as the core. Both cores are
      stripped. */
  function SplitBullet(b: String): Parts
  {
    if IsBulletLine(b) then
      var j := SpaceRunEnd(b, IndentEnd(b) + 1);
      Parts(b[..j], Strip(b[j..FindChar(b, '\n', j)]))
    else
      Parts("- ", Strip(b))
  }

  /** The prefix is always a marker prefix and the core is stripped. A bullet
      line's prefix is the longest marker prefix it starts with, and its core
      is the rest of its first line with the trailing whitespace taken off;
      any other bullet gets "- " and is stripped whole. */
  lemma SplitBulletShape(b: String)
    ensures var p := SplitBullet(b);
            && MarkerPrefix(p.prefix)
            && Stripped(p.core)
            && (IsBulletLine(b) ==> StartsWith(b, p.prefix) && (|p.prefix| == |b| || !IsSpace(b[|p.prefix|])))
            && (IsBulletLine(b) ==> SplitsAt(b, p.prefix, p.core, FindChar(b, '\n', |p.prefix|)))
            && (!IsBulletLine(b) ==> p.prefix == "- " && p.core == Strip(b))
  {
    if IsBulletLine(b) {
      var k := IndentEnd(b);
      var j := SpaceRunEnd(b, k + 1);
      MarkerRun(b, k, j);
      assert b[..j] == b[0..j];
      BulletParts(b);
    } else {
      DashPrefix();
    }
  }

  /** Indentation, a marker and a whitespace run form a marker prefix. */
  lemma MarkerRun(b: String, k: nat, j: nat)
    requires k == IndentEnd(b) && k + 1 < j <= |b| && IsMarker(b[k])
    requires forall t :: k + 1 <= t < j ==> IsSpace(b[t])
    ensures MarkerPrefix(b[..j])
  {
    var x := b[..j];
    IndentEndPrefix(b, j);
    assert x[k + 1..] == b[k + 1..j];
  }

  lemma DashPrefix()
    ensures MarkerPrefix("- ")
  {
    assert IndentEnd("- ") == 0;
  }

  /** Cutting a line after its first non-indent character keeps the indent. */
  lemma {:induction false} IndentEndPrefix(l: String, j: nat)
    requires IndentEnd(l) < j <= |l|
    ensures IndentEnd(l[..j]) == IndentEnd(l)
  {
    assert forall x :: 0 <= x < j ==> l[..j][x] == l[x];
  }

  /** Appending to a line whose indent ends inside it keeps the indent. */
  lemma IndentEndAppend(x: String, y: String)
    requires IndentEnd(x) < |x|
    ensures IndentEnd(x + y) == IndentEnd(x)
    decreases |x|
  {
    if IsIndent(x[0]) {
      assert (x + y)[1..] == x[1..] + y;
      IndentEndAppend(x[1..], y);
    }
  }

  /** Whatever follows a marker prefix, the result is a bullet line. */
  lemma PrefixMakesBullet(x: String, y: String)
    requires MarkerPrefix(x)
    ensures IsBulletLine(x + y)
  {
    IndentEndAppend(x, y);
  }

  /** `b` begins with `pre + c`, and after that only whitespace comes before
      position `e`. */
  predicate SplitsAt(b: String, pre: String, c: String, e: nat) {
    var n := |pre| + |c|;
    n <= e <= |b| && b[..n] == pre + c && AllSpace(b[n..e])
  }

  /** For a bullet line, the core is the rest of its first line after the
      prefix with the trailing whitespace taken off: the line up to its first
      newline (or its end) is the prefix, the core, then whitespace. */
  lemma BulletParts(b: String)
    requires IsBulletLine(b)
    ensures var p := SplitBullet(b);
            SplitsAt(b, p.prefix, p.core, FindChar(b, '\n', |p.prefix|))
  {
    var j := SpaceRunEnd(b, IndentEnd(b) + 1);
    var e := FindChar(b, '\n', j);
    var c := SplitBullet(b).core;
    LineCore(b, j, e, c);
    PrefixSplit(b, j, e, c);
  }

  /** Text before `j` as the prefix, followed by `c` and whitespace up to `e`. */
  lemma PrefixSplit(b: String, j: nat, e: nat, c: String)
    requires j + |c| <= e <= |b| && b[..j + |c|] == b[..j] + c && AllSpace(b[j + |c|..e])
    ensures SplitsAt(b, b[..j], c, e)
  {
  }

  /** The stripped rest of a line, when it starts with no whitespace, is
      followed by whitespace only up to the line's end. */
  lemma LineCore(b: String, j: nat, e: nat, c: String)
    requires j <= e <= |b| && (j == e || !IsSpace(b[j])) && c == Strip(b[j..e])
    ensures j + |c| <= e && b[..j + |c|] == b[..j] + c && AllSpace(b[j + |c|..e])
  {
    StripFromWord(b[j..e]);
    CutLine(b, j, e, c);
  }

  lemma CutLine(b: String, j: nat, e: nat, c: String)
    requires j <= e <= |b|
    requires |c| <= e - j && b[j..e] == c + b[j..e][|c|..] && AllSpace(b[j..e][|c|..])
    ensures b[..j + |c|] == b[..j] + c && AllSpace(b[j + |c|..e])
  {
    assert b[j..e][|c|..] == b[j + |c|..e];
    assert b[..j + |c|] == b[..j] + b[j..j + |c|];
  }

  /** The model call with its reply cleaned: `align_bullet`. */
  function AlignBullet(jd: String, core: String, rw: (String, String) -> String): String
  {
    CleanReply(rw(jd, core))
  }

  /** One bullet through the aligner: the prefix followed by the cleaned reply
      to its core. */
  function AlignOne(jd: String, b: String, rw: (String, String) -> String): String
  {
    var p := SplitBullet(b);
    p.prefix + AlignBullet(jd, p.core, rw)
  }

  /** Every aligned bullet is a bullet line that starts with the prefix of the
      bullet it came from, "- " for one without a marker. */
  lemma AlignOneShape(jd: String, b: String, rw: (String, String) -> String)
    ensures var r := AlignOne(jd, b, rw);
            && IsBulletLine(r)
            && StartsWith(r, SplitBullet(b).prefix)
            && (!IsBulletLine(b) ==> StartsWith(r, "- "))
  {
    var p := SplitBullet(b);
    var a := AlignBullet(jd, p.core, rw);
    SplitBulletShape(b);
    PrefixMakesBullet(p.prefix, a);
    assert (p.prefix + a)[..|p.prefix|] == p.prefix;
  }

  /** `align_bullets_to_job`: one aligned bullet per input bullet, in order. */
  function AlignBullets(jd: String, bs: seq<String>, rw: (String, String) -> String): (r: seq<String>)
    ensures |r| == |bs|
    ensures forall i :: 0 <= i < |bs| ==> r[i] == AlignOne(jd, bs[i], rw)
  {
    if bs == [] then [] else [AlignOne(jd, bs[0], rw)] + AlignBullets(jd, bs[1..], rw)
  }

  /** A bullet line that an echoing model would leave alone: a single line,
      no trailing whitespace, and a core that does not begin with the label. */
  predicate EchoStable(b: String) {
    && IsBulletLine(b) && NoChar(b, '\n') && !IsSpace(b[|b| - 1])
    && !FoldAt(SplitBullet(b).core, Label, 0)
  }

  /** With a model that returns the core it is given, a bullet with no
      trailing whitespace whose core does not begin with the label comes
      back unchanged. */
  lemma AlignOneEcho(jd: String, b: String, rw: (String, String) -> String)
    requires EchoStable(b)
    requires rw(jd, SplitBullet(b).core) == SplitBullet(b).core
    ensures AlignOne(jd, b, rw) == b
  {
    var p := SplitBullet(b);
    SplitBulletShape(b);
    EchoCore(jd, p.core, rw);
    RejoinLine(b);
  }

  /** The converse restriction: with a model that returns the core it is
      given, a bullet line ending in whitespace whose core is not empty
      does not come back as it was, since the reply is stripped. */
  lemma AlignOneTrims(jd: String, b: String, rw: (String, String) -> String)
    requires b != [] && IsBulletLine(b) && IsSpace(b[|b| - 1])
    requires SplitBullet(b).core != [] && rw(jd, SplitBullet(b).core) == SplitBullet(b).core
    ensures AlignOne(jd, b, rw) != b
  {
    var p := SplitBullet(b);
    BulletParts(b);
    assert |p.prefix| < |b|;
    StrippedTail(p.prefix, AlignBullet(jd, p.core, rw), b);
  }

  /** A text ending in whitespace is not a shorter prefix followed by a
      stripped text. */
  lemma StrippedTail(pre: String, r: String, b: String)
    requires |pre| < |b| && IsSpace(b[|b| - 1]) && Stripped(r)
    ensures pre + r != b
  {
    if r != [] {
      assert (pre + r)[|pre| + |r| - 1] == r[|r| - 1];
    }
  }

  /** An echoed core that is stripped and has no label comes back as it is. */
  lemma EchoCore(jd: String, c: String, rw: (String, String) -> String)
    requires Stripped(c) && !FoldAt(c, Label, 0) && rw(jd, c) == c
    ensures AlignBullet(jd, c, rw) == c
  {
    CleanReplyKeeps(c);
  }

  /** A one-line bullet without trailing whitespace is its prefix and core. */
  lemma RejoinLine(b: String)
    requires IsBulletLine(b) && NoChar(b, '\n') && !IsSpace(b[|b| - 1])
    ensures SplitBullet(b).prefix + SplitBullet(b).core == b
  {
    var p := SplitBullet(b);
    BulletParts(b);
    assert FindChar(b, '\n', |p.prefix|) == |b|;
    WholeSplit(b, p.prefix, p.core);
  }

  /** A split reaching the end of text that does not end in whitespace
      leaves no whitespace over. */
  lemma WholeSplit(b: String, pre: String, c: String)
    requires SplitsAt(b, pre, c, |b|) && (b == [] || !IsSpace(b[|b| - 1]))
    ensures pre + c == b
  {
    var n := |pre| + |c|;
    NoSpaceTail(b, n);
    assert b[..n] == b;
  }

  lemma NoSpaceTail(s: String, n: nat)
    requires n <= |s| && AllSpace(s[n..|s|]) && (s == [] || !IsSpace(s[|s| - 1]))
    ensures n == |s|
  {
  }

  /** Aligning with an echoing model changes no echo-stable bullet. */
  lemma {:induction false} AlignBulletsEcho(jd: String, bs: seq<String>, rw: (String, String) -> String)
    requires forall i :: 0 <= i < |bs| ==> EchoStable(bs[i])
    requires forall c :: rw(jd, c) == c
    ensures AlignBullets(jd, bs, rw) == bs
  {
    var r := AlignBullets(jd, bs, rw);
    forall i | 0 <= i < |bs|
      ensures r[i] == bs[i]
    {
      AlignOneEcho(jd, bs[i], rw);
    }
  }
}
