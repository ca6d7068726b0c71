# Resume tailor: a Dafny model of its text-rewriting core

The repository rewrites a plain-text resume so that its bullet points match a
job description. It does this in two ways, and this project models the text
processing of both. The language model calls are left abstract.

* **The tailoring loop** (`tailor.py`, `bullet_utils.py`, `llm_utils.py`).
  For "Work Experience" and then "Projects", the loop:
  - finds the section with the pattern
    `(?mi)(?P<header>NAME\s*\n)(?P<body>.*?)(?=\n[A-Z][A-Z ]+\n|\Z)`;
  - skips it when the body is blank or has no bullet line;
  - otherwise splits each bullet into its marker prefix and a stripped core, and
    sends the core to a model;
  - cleans the reply, splices the new bullets over the old bullet lines one for
    one, and substitutes the new body back into the resume.
* **The older pipeline** (`resume_tailor.py`):
  - `extract_sections` cuts the resume into sections at lines holding a
    section word.
  - `extract_bullet_points` classifies bullet points.
  - `improve_section_bullets` asks an improvement chain for improvements, with
    a fallback when it fails. `process_resume` picks the sections to improve.
  - `rebuild_resume` writes each improvement back with one of four search
    patterns, then substitutes the whole section.

| file | module | what it holds |
|---|---|---|
| option.dfy | `Options` | `Option` |
| text.dfy | `Text` | Python's whitespace, `strip`, `split`, `splitlines`, `join`, and IGNORECASE character comparison |
| sections.dfy | `Sections` | `extract_section` and `replace_section`. The pattern is stated declaratively (`IsMatch`, `IsFirstMatch`), and the backtracking search is proved against it |
| bullets.dfy | `Bullets` | `extract_bullets` and `replace_bullets` |
| align.dfy | `Align` | `align_bullet` and `align_bullets_to_job`; the model is a function parameter `rw` |
| tailor.dfy | `Tailor` | `tailor_resume_file` |
| section_fixes.dfy | `SectionFixes` | the corrected section pattern and the corrected splice, each beside counterexamples to the version as written |
| tailor_fixes.dfy | `TailorFixes` | the tailoring loop on the corrected pattern and splice |
| legacy_sections.dfy | `LegacySections` | `extract_sections` and `extract_bullet_points` |
| legacy_rebuild.dfy | `LegacyRebuild` | `improve_section_bullets`, the target filter of `process_resume`, and `rebuild_resume` |

`resume_tailor.py` spells its bullet glyph as the three characters U+201A
U+00C4 U+00A2, which are the UTF-8 bytes of "•" read as Mac Roman. The model
uses the same three characters (`LegacySections.G`).

## Model

| member | source | states |
|---|---|---|
| Text.StripShape | llm_utils.py:24 | `str.strip()` removes whitespace only at the two ends: the result is a contiguous piece of the input, with only whitespace before and after it |
| Text.StripEmpty | tailor.py:12 | a body strips to "" exactly when every character in it is whitespace |
| Text.Split | resume_tailor.py:137 | `split('\n')` gives at least one piece, no piece holds '\n', and joining the pieces with '\n' gives the text back |
| Text.SplitJoin | resume_tailor.py:181 | splitting at '\n' a '\n'-join of lines without '\n' gives back exactly those lines |
| Text.LinesAsSplit | bullet_utils.py:40 | on non-empty text whose only line boundary is '\n', `splitlines()` is `split('\n')` without a final empty piece |
| Text.JoinLines | bullet_utils.py:40-55 | `"\n".join(s.splitlines())` gives `s` back exactly when `s` is empty or does not end with '\n' |
| Sections.FindFrom | bullet_utils.py:10-11 | `re.search` returns a match of the pattern that starts no later than any other match and has the longest header (`\s*` run) at that start; it returns nothing only when the pattern matches nowhere from that position |
| Sections.BodyIsRestOfLine | bullet_utils.py:10 | without DOTALL a matched body is exactly the rest of the line after the header |
| Sections.OnlyFirstMatch | bullet_utils.py:11 | the match `re.search` reports is unique |
| Sections.ExtractSection | bullet_utils.py:5-12 | `extract_section` returns the body of the reported match, or "" when the pattern matches nowhere; the body never holds a newline |
| Sections.Matches | bullet_utils.py:23 | the matches `re.sub` visits come in order and do not overlap; each is the first match after the previous one ends, and none follows the last |
| Sections.ReplaceSection | bullet_utils.py:15-23 | with no match the resume is returned as it is; otherwise it still starts with everything before the first body, followed by the new body |
| Sections.ReplaceIsWeave | bullet_utils.py:20-23 | `re.sub` keeps every header and all text between matches, and puts the new body in place of every match's body |
| Sections.ReplaceWithOwnBodies | bullet_utils.py:20-23 | substituting a body that every match already has changes nothing |
| Sections.ReplaceExtractedSection | bullet_utils.py:5-23 | when the pattern matches exactly once, replacing the section with its own extracted body returns the resume unchanged |
| Bullets.BulletLineShape | bullet_utils.py:44 | a line passes `^[\t ]*(?:[-\*•])\s+.*` exactly when it is tabs and spaces, then one of the three markers, then a whitespace character |
| Bullets.ExtractBullets | bullet_utils.py:26-32 | `findall` returns one bullet per bullet line of the section, in document order (the k-th bullet is the k-th bullet line), each a single line that passes the bullet test |
| Bullets.BulletsAreLines | bullet_utils.py:31 | every extracted bullet is one of the section's lines |
| Bullets.SpliceLine | bullet_utils.py:43-51 | output line i is the next unused new bullet when line i is a bullet line and one remains, and line i itself otherwise |
| Bullets.ConsumedCount | bullet_utils.py:42-51 | the loop uses as many new bullets as the smaller of the new-bullet count and the bullet-line count |
| Bullets.SpliceShape | bullet_utils.py:52-54 | the output has one line per input line, followed by exactly the unused new bullets, in order |
| Bullets.BulletsOfSplice | bullet_utils.py:35-55 | the bullet lines of the output are the new bullets, followed by the old bullet lines that got no replacement |
| Bullets.SpliceOwnBullets | bullet_utils.py:43-54 | splicing a section's own bullets over its lines gives the lines back |
| Bullets.ReplaceOwnBullets | bullet_utils.py:35-55 | `replace_bullets(s, extract_bullets(s)) == s` for a section with '\n' as its only line boundary and no final newline |
| Align.CleanReply | llm_utils.py:22-26 | the cleaned reply is a stripped suffix of the stripped reply: all of it when the label does not start it (compared case-insensitively), and otherwise what follows the label and a run of whitespace |
| Align.CleanReplyKeeps | llm_utils.py:24-25 | a reply that is already stripped and has no label comes back as it is |
| Align.SplitBulletShape | llm_utils.py:32-36 | the prefix is indentation, a marker and whitespace, and the core is stripped. A bullet line starts with its prefix, which takes the whole whitespace run, and its core is the rest of its first line after the prefix, up to the first newline, with only whitespace cut off at the end; any other bullet gets "- " and is stripped whole |
| Align.AlignOneShape | llm_utils.py:32-38 | every aligned bullet is a bullet line that starts with the prefix of its original ("- " for an original without a marker) |
| Align.AlignBullets | llm_utils.py:29-39 | one aligned bullet per input bullet, in the same order |
| Align.AlignOneEcho | llm_utils.py:22-38 | with a model that echoes the core, a one-line bullet without trailing whitespace or a leading label comes back unchanged |
| Align.AlignOneTrims | llm_utils.py:22-38 | with such a model, a bullet ending in whitespace with a non-empty core does not come back unchanged |
| Align.AlignBulletsEcho | llm_utils.py:29-39 | with a model that echoes every core, a list of such one-line bullets comes back unchanged |
| Tailor.BodyBullets | tailor.py:14 | a one-line body has itself as its only bullet when it is a bullet line, and no bullets otherwise |
| Tailor.SkipRule | tailor.py:11-16 | the loop skips a section (blank body or no bullets) exactly when the body is not a bullet line |
| Tailor.TailorSectionSkips | tailor.py:12-16 | a skipped section leaves the resume unchanged |
| Tailor.TailorSectionNoMatch | tailor.py:11-13 | a section whose pattern matches nowhere leaves the resume unchanged |
| Tailor.TailorSectionAligns | tailor.py:14-19 | a bullet body is aligned, spliced and substituted back: the result starts with the text before the first body, followed by the aligned bullet |
| Tailor.TailorSectionEcho | tailor.py:10-19 | with an echoing model, a section matched once whose body is an echo-stable bullet comes back unchanged |
| Tailor.TailorSectionEchoDuplicate | tailor.py:10-19 | with an echoing model, a section matched twice with different bodies does not come back unchanged |
| Tailor.TailorResumeOrder | tailor.py:10-20 | "Work Experience" is processed first, and "Projects" is then looked up in the text that turn produced |
| Tailor.TailorResumeUnchanged | tailor.py:6-20 | when neither section body is a bullet line, the resume is returned as it was loaded |
| SectionFixes.FindSection | bullet_utils.py:10-11 | the search with the corrected pattern reports the leftmost match, with the longest header at that start, or nothing when there is no match |
| SectionFixes.ExtractSectionFixed | bullet_utils.py:5-12 | the corrected `extract_section` returns all lines of the first section up to the next heading line, the final newline or the end, or "" when the name has no section |
| SectionFixes.LineMatchIsSection | bullet_utils.py:10 | every match of the pattern as written is a match of the corrected pattern with the same header and body |
| SectionFixes.MultiLineSectionMissed | bullet_utils.py:10 | as written, the pattern has no match at a header whose section spans more than one line |
| SectionFixes.FinalLineSectionMissed | bullet_utils.py:10 | as written, the pattern has no match at a header whose one-line body is followed by the final newline of the text; the corrected pattern matches there |
| SectionFixes.TwoLineExample | bullet_utils.py:5-12 | on "Projects\n- a\n- b", `extract_section` as written returns "" and the corrected one returns "- a\n- b" |
| SectionFixes.FinalLineExample | bullet_utils.py:5-12 | on "Projects\n- a\n", `extract_section` as written returns "" and the corrected one returns "- a" |
| SectionFixes.EchoOverwritesLaterSection | bullet_utils.py:15-23 | when the name has two matches with different bodies, substituting back the extracted body changes the resume |
| SectionFixes.ReplaceFirstSection | bullet_utils.py:15-23 | the corrected splice returns the resume unchanged when there is no match; otherwise only the first body is replaced and everything else is kept |
| SectionFixes.ReplaceFirstExtracted | bullet_utils.py:15-23 | with the corrected splice, substituting back the extracted body returns every resume unchanged |
| SectionFixes.ReplaceFirstAgrees | bullet_utils.py:20-23 | where the name matches at most once, the corrected splice and `re.sub` agree |
| SectionFixes.ReplaceSectionFixed | bullet_utils.py:15-23 | the splice with both corrections replaces only the body of the first corrected match and keeps everything else |
| SectionFixes.ReplaceFixedExtracted | bullet_utils.py:5-23 | with both corrections, substituting back the extracted body returns every resume unchanged |
| TailorFixes.TailorSectionFixedEcho | tailor.py:10-19 | with an echoing model, one turn of the corrected loop returns the resume unchanged for multi-line bodies and repeated names |
| TailorFixes.TailorResumeFixedEcho | tailor.py:6-20 | with an echoing model, the corrected loop returns the resume unchanged |
| TailorFixes.TwoLineUntouched | tailor.py:10-19 | as written, the loop returns "Projects\n- a\n- b" unchanged whatever the model says, because it never finds the section |
| LegacySections.HeaderWordsIff | resume_tailor.py:127-145 | a line is a section header exactly when its lower-cased, stripped text holds one of the ten section words and its stripped text is shorter than 50 characters |
| LegacySections.HeaderNotBlank | resume_tailor.py:145-156 | a header line never strips to the empty name, and the empty line is no header |
| LegacySections.StartsNumberedIff | resume_tailor.py:187 | `re.match(r'^\d+\.')` holds exactly when the text starts with one or more digits followed by a dot |
| LegacySections.ExtractBulletPointsIff | resume_tailor.py:178-192 | a string is among the bullet points exactly when it is the stripped form of some line and passes the bullet test |
| LegacySections.ExtractBulletPointsJoin | resume_tailor.py:181-190 | the bullet points of two texts joined by '\n' are those of the first, followed by those of the second |
| LegacySections.LookupPut | resume_tailor.py:150-154 | reading back a key just assigned gives the new value; every other key reads as before |
| LegacySections.PutMembers | resume_tailor.py:150-154 | an assignment adds its entry, keeps only entries already present otherwise, and keeps the keys distinct |
| LegacySections.ExtractSectionsByBlocks | resume_tailor.py:122-176 | the line loop gives the "header" entry for the lines before the first header, then one entry per header with at least one line under it; its content is those lines joined by '\n' |
| LegacySections.TerminatedJoin | resume_tailor.py:166 | the "header" content is its lines joined by '\n', plus a final '\n' |
| LegacySections.NoHeaderText | resume_tailor.py:162-166 | a text with no header line gives only the "header" entry, holding the whole text plus '\n' |
| LegacySections.OneSection | resume_tailor.py:139-174 | a header line followed by header-free lines gives one entry, named by the stripped header, holding those lines with start line 0 and their bullet points |
| LegacySections.ExtractSectionsUnique | resume_tailor.py:150-170 | the section names are distinct |
| LegacySections.ContentHeaderFree | resume_tailor.py:143-161 | no line of any section's content passes the header test |
| LegacyRebuild.BulletsTextLines | resume_tailor.py:221 | the bullets text has one line per bullet: the glyph, a space and the bullet |
| LegacyRebuild.Fallback | resume_tailor.py:235-242 | the fallback gives one improvement per bullet, in order. Each has original and improved equal to the bullet, the fixed reason, and no keywords |
| LegacyRebuild.ImproveSectionBullets | resume_tailor.py:213-243 | with no bullets, the improvements are empty and no call is made; when the call or the parsing fails, the result is the fallback for that section; otherwise it is the chain's parsed reply |
| LegacyRebuild.TargetIff | resume_tailor.py:365-368 | a section is a target exactly when its lower-cased name contains "experience" or "projects" |
| LegacyRebuild.ImproveTargetsIff | resume_tailor.py:365-372 | the improvements dictionary holds an entry exactly for the target sections with at least one bullet point, each the result of `improve_section_bullets` |
| LegacyRebuild.ImproveTargetsInOrder | resume_tailor.py:365-372 | the entries come in the order of `sections`, one for each target section with at least one bullet point: entry `i` comes from the section at index `ks[i]`, the indices increase, and every wanted section's index is among them. `rebuild_resume` applies the improvements in this order (resume_tailor.py:253) |
| LegacyRebuild.FoundFromIff | resume_tailor.py:275 | the case-insensitive search succeeds exactly when the literal occurs at some position |
| LegacyRebuild.SubFirstHit | resume_tailor.py:276-281 | `re.sub` keeps the text before the first occurrence, writes the replacement, and continues after that occurrence |
| LegacyRebuild.SubNoHit | resume_tailor.py:276-281 | with no occurrence, `re.sub` changes nothing |
| LegacyRebuild.ReplaceSelf | resume_tailor.py:285 | replacing a section's content with itself changes nothing |
| LegacyRebuild.LStripSet | resume_tailor.py:262 | `lstrip` removes the longest prefix made of the given characters: the result is a suffix, everything removed is in the set, and the result does not start with a set character |
| LegacyRebuild.TrySubFirst | resume_tailor.py:274-282 | the first of the four patterns that is found is the one substituted |
| LegacyRebuild.TrySubNone | resume_tailor.py:274-282 | when no pattern is found, the content is unchanged if all four patterns can be searched, and an error is raised if one cannot |
| LegacyRebuild.RebuildAbsent | resume_tailor.py:253-255 | improvements only for sections missing from the dictionary leave the resume unchanged |
| LegacyRebuild.RebuildNoMatch | resume_tailor.py:245-287 | when no improvement is found in its section's content in any of the four forms, the rebuild (with the asterisk escaped) returns the resume unchanged |
| LegacyRebuild.RebuildRaises | resume_tailor.py:267-282 | as written, the rebuild raises when the first improvement of the first present section is found in neither the glyph form nor the dash form |
| LegacyRebuild.StarRaises | resume_tailor.py:267-282 | as written, the rebuild of "Projects\n* a" with the improvement "* a" to "b" raises |
| LegacyRebuild.StarIntended | resume_tailor.py:262-285 | with the asterisk escaped, the same rebuild returns "Projects\n" followed by the glyph, a space and "b" |

## Left out

- The language models, prompts, the `LLMChain` and the JSON parsing of its reply are function parameters. `rw(jd, core)` gives the aligner's raw reply and is total, so the exception that `llm(prompt)` may raise (llm_utils.py:24) is not modelled. `Chain` gives `None` where the chain call or `json.loads` raises.
- `load_resume_text` (tailor.py:7) and `resume_loader.py` are not part of this model. The resume is a text parameter.
- `app.py`, `analyze_resume_job_fit`, the display and save functions, progress bars and console output are not part of this model; they do I/O only.
- Tailor.TailorSection: section names must be ASCII (`SectionName`), so IGNORECASE compares the name letter by letter. Both names the loop uses are ASCII.
- Sections.ExtractSection: requires `IsAscii(name)`, for the same reason. A non-ASCII name is not covered, although `re.escape` and IGNORECASE would accept it. `SectionFixes.ExtractSectionFixed` has the same requirement.
- Sections.ReplaceSection: requires `IsAscii(name)`, as `Sections.ExtractSection` does. `SectionFixes.ReplaceSectionFixed` has the same requirement.
- Bullets.ExtractBullets: requires `NoDanglingMarker`. A line that is a marker followed only by whitespace would let `findall`'s `\s+` run across the next newline, and the model reads the section line by line. Every one-line body, which is every body the loop as written can extract, meets this requirement (`Tailor.BodyBullets`).
- Bullets.ReplaceOwnBullets: requires '\n' as the only line boundary and no final newline. `splitlines` splits at other boundaries too, and joining its lines drops a final newline (`Text.JoinLines`). `Text.Lines` models `splitlines` in full.
- Tailor.TailorSectionAligns: requires `NoBreak(body)`. The pattern at bullet_utils.py:10 can also give a one-line body that holds another `splitlines` boundary ('\r', '\x0b', '\x0c', '\x1c'-'\x1e', '\x85', '\u2028', '\u2029'), as "- a\r- b" in "Projects\n- a\r- b". `replace_bullets` splits such a body into several lines, so the new body is not the single aligned bullet. Such bodies are not covered.
- Align.AlignOneEcho: an echoing model leaves a bullet unchanged only when it has no trailing whitespace. `str.strip` at llm_utils.py:24 and 33-36 removes trailing whitespace, and `Align.AlignOneTrims` proves that such a bullet changes. The echo lemmas require `EchoStable` for this reason.
- LegacySections.ExtractSectionsByBlocks: requires the text to be over ASCII plus the three glyph characters (`ResumeText`). On that alphabet `Lower` is Python's `str.lower`. Outside it `str.lower` also folds letters like the Kelvin sign, which the model does not.
- LegacySections.ExtractBulletPoints: `\d` at resume_tailor.py:187 is modelled as the ASCII digits. Python also accepts other Unicode decimal digits there.
- LegacySections.ExtractSections: `start_line` is `len(sections) * 10`, which the source itself calls approximate. It is kept as that number.
- LegacyRebuild.RebuildResume: requires `Admissible`:
  - the section contents and the improvement texts are in the modelled alphabet, so the case-insensitive search is `FoldAt`;
  - no improved bullet holds a backslash, so `re.sub` takes the replacement literally.
- LegacyRebuild.ImproveTargets: appends one entry per target section instead of assigning into a dictionary. The section names are distinct (`LegacySections.ExtractSectionsUnique`), so the two agree.
- LegacyRebuild.RebuildResume: the error `re` raises for the pattern that starts with `*` is `None`. In the source it leaves `rebuild_resume` and reaches the handler at resume_tailor.py:482, which reports it and raises it again.

## Findings

| source | as written | input that shows it | evidently intended | confidence | as-written member | corrected member |
|---|---|---|---|---|---|---|
| bullet_utils.py:10 | without DOTALL the lazy body `.*?` cannot cross a newline, so a section whose body spans several lines is not matched at all | `extract_section("Projects\n- a\n- b", "Projects")` returns "" | the docstring promises everything up to the next heading: "- a\n- b" | high, not executed | SectionFixes.MultiLineSectionMissed | SectionFixes.ExtractSectionFixed |
| bullet_utils.py:10 | `\Z` matches only at the very end, so a body followed by the text's final newline is not matched | `extract_section("Projects\n- a\n", "Projects")` returns "" | "- a", since the document ends there | high, not executed | SectionFixes.FinalLineSectionMissed | SectionFixes.ExtractSectionFixed |
| bullet_utils.py:20-23 | `re.sub` replaces every match, so the body extracted from the first section is written into every section of that name | `"Projects\n- a\nX Y\nProjects\n- b"`: substituting back the extracted body "- a" turns the second body into "- a" | only the section that was extracted is replaced | medium, not executed | SectionFixes.EchoOverwritesLaterSection | SectionFixes.ReplaceFirstExtracted |
| resume_tailor.py:270 | `"* " + re.escape(...)` starts with an unescaped `*`, which `re` rejects ("nothing to repeat"), so any improvement not found in the first two forms aborts the rebuild | section "Projects" with content "* a", improvement of "* a" to "b" | the third form is searched like the others and the bullet is replaced | high, not executed | LegacyRebuild.StarRaises | LegacyRebuild.StarIntended |

`TwoLineExample` and `FinalLineExample` prove the values in the first two
rows. `TailorFixes.TailorResumeFixedEcho` proves that the tailoring loop, on
the corrected pattern and splice, returns every suitable resume unchanged under
an echoing model; the loop as written does not (`Tailor.TailorSectionEchoDuplicate`,
`TailorFixes.TwoLineUntouched`). `Tailor` itself follows the code as written.
