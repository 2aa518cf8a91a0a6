# Helium brand substitution, modelled in Dafny

Helium is a Chromium-based browser. Its build scripts rename the browser in
Chromium's user-visible strings. This project models the parts of those
scripts that compute something and proves what they do.

- **The rule pipeline** (`SubstitutionRules`). Seven fixed regular expressions
  run in order over a text. Rules 1-4 tag words that must keep their brand
  (`Chrome Root Program`, `Chrome Web Store`, `Chrome Remote Desktop`, the
  `Chromium` inside the `BEGIN_LINK_CHROMIUM` link). Rule 5 turns
  `Chrome`/`Chromium` (optionally after `Google `) into `Helium`. Rules 6-7
  remove the tags. Each rule is a hand-written matcher at one position.
  `Sub` is Python's `re.sub` over that matcher: leftmost, non-overlapping,
  replace-all. `ReplacementSanity` proves the script's own before/after
  fixtures against this model.
- **GRIT messages** (`Grit`). A `.grd` message is an XML element, modelled as
  the `Elem` datatype. The module covers:
  - the canonical text of a message, from which its fingerprint is computed;
  - the rewrite of every text and tail in a message;
  - the rewrite of a whole tree, which builds the map from old to new fingerprints;
  - the merge of those maps across files.
- **File selection and per-file results** (`NameSubstitution`). The module covers:
  - which files of a walked source tree are candidates;
  - what the string-file and translation-file steps return and write;
  - how `do_substitution` chains the two phases;
  - the argument check for `--unsub`.
- **Version numbering** (`HeliumVersion`). The module covers:
  - reading the first number of each version file and shifting the minor part by 136;
  - printing the version joined by dots;
  - appending `NAME=value` lines to Chromium's `VERSION` file, refusing a file that already mentions `HELIUM`.
- **Resource lists** (`ResourceLines`, `GenerateResources`, `ReplaceResources`).
  These are line-oriented lists of images to scale and files to copy. A list
  is parsed line by line and work stops at the first invalid line.

`Text` holds the string helpers these share: Python's `strip`, `split()`,
`split(c)`, `join`, `int()` and `str()`. `Wrappers` holds `Option` and `Result`.

Python exceptions are modelled as `None`, `Failure` or an error value.
External code and I/O become parameters:
- the message-id function `GenerateMessageId` is the parameter `genId`;
- serialising a tree is the parameter `serialise`;
- the translation-file rewriter's result is the parameter `replaced`, or the function `xtbPhase`;
- file contents are given as strings or as sequences of lines.

## Model

| member | source | states |
|---|---|---|
| SubstitutionRules.ReplaceText | utils/name_substitution_utils.py:70-74 | the result is the rule list applied in order, each rule rewriting the previous rule's output |
| SubstitutionRules.WordRun | utils/name_substitution_utils.py:12-14 | the run `\w+` takes is made of word characters and is followed by a non-word character or the end |
| SubstitutionRules.WordRunIsOnlySplit | utils/name_substitution_utils.py:12-14 | a run of word characters directly followed by a non-word character is the only split a backtracking `(\w+)` can use before a phrase that starts with a space |
| SubstitutionRules.FindOnLine | utils/name_substitution_utils.py:15 | the lazy `.*?` of rule 4 finds the first occurrence of the target at or after the start that has no line break before it, and finds nothing when every occurrence is past a line break |
| SubstitutionRules.FindOnLineAt | utils/name_substitution_utils.py:15 | conversely, the first occurrence on the line is the one found |
| SubstitutionRules.MatchRule | utils/name_substitution_utils.py:10-23 | every match of a rule is non-empty and lies within the text, so the scan always advances |
| SubstitutionRules.MatchHasKeyChar | utils/name_substitution_utils.py:10-23 | every match of a rule contains that rule's key character |
| SubstitutionRules.SubWithoutKeyChar | utils/name_substitution_utils.py:72-73 | `re.sub` with a rule leaves every text without that rule's key character unchanged |
| SubstitutionRules.SubCopies | utils/name_substitution_utils.py:72-73 | where no match starts inside a prefix, `re.sub` copies the prefix and resumes after it |
| SubstitutionRules.SubHit | utils/name_substitution_utils.py:72-73 | a match at the scan position emits its replacement and scanning resumes after the match (no overlap) |
| SubstitutionRules.SubCopiesInert | utils/name_substitution_utils.py:72-73 | characters that cannot begin a match are copied unchanged |
| SubstitutionRules.TagsWordBefore | utils/name_substitution_utils.py:12-14 | a tag rule appends `_unreplace` to a word directly before its phrase and writes the canonical phrase back |
| SubstitutionRules.TagSkipsWord | utils/name_substitution_utils.py:12-14 | a word not followed by the rule's phrase is left alone by that tag rule |
| SubstitutionRules.LinkTagsChromium | utils/name_substitution_utils.py:15 | for any one-line link, rule 4 tags the first `Chromium` after `"BEGIN_LINK_CHROMIUM"` once `<ph name="END_LINK_CHROMIUM"` follows it on that line, and then carries on after that closing marker; the only conditions are that no earlier `Chromium` or closing marker sits in between, which is what makes these the lazy groups' first choices |
| SubstitutionRules.LinkMatchOf | utils/name_substitution_utils.py:15 | under the same conditions, the match of rule 4 runs from the opening marker to the end of the first closing marker after the first `Chromium`, with the tag inserted right after that `Chromium` |
| SubstitutionRules.LinkTagsAfterChrome | utils/name_substitution_utils.py:15 | a `Chrome` before the `Chromium` and an HTML tag before the closing marker do not stop rule 4 from tagging the link |
| SubstitutionRules.RebrandReplacesBrand | utils/name_substitution_utils.py:18 | every `Chrome`, `Chromium`, `Google Chrome` and `Google Chromium` not followed by a word character becomes `Helium` |
| SubstitutionRules.RebrandMatchGoogle | utils/name_substitution_utils.py:18 | the optional `Google ` is taken into the match, so `Google Chrome` becomes one `Helium` |
| SubstitutionRules.RebrandKeepsLongerWord | utils/name_substitution_utils.py:18 | a brand running on into a word character is not matched (the `(?!\w)` look-ahead) |
| SubstitutionRules.RebrandNeedsBoundary | utils/name_substitution_utils.py:18 | rule 5 cannot match where the characters after the position are word characters at the places a brand must end |
| SubstitutionRules.RebrandSkipsTagged | utils/name_substitution_utils.py:18 | a word carrying the tag is never rebranded, wherever the scan enters it |
| SubstitutionRules.RebrandAddsNoChar | utils/name_substitution_utils.py:18 | rule 5 introduces no character that is neither in its input nor in `Helium` |
| SubstitutionRules.UntagBrandInTaggedWord | utils/name_substitution_utils.py:21 | rule 6 matches at the start of a tagged word exactly when the word is a brand, and then drops just the tag |
| SubstitutionRules.UntagBrandOverTagged | utils/name_substitution_utils.py:21 | over a whole tagged word, rule 6 drops the tag exactly when the word ends with a brand |
| SubstitutionRules.UntagOverTagged | utils/name_substitution_utils.py:22 | rule 7 deletes the tag after a word |
| SubstitutionRules.UntagLeavesPlain | utils/name_substitution_utils.py:22 | rule 7 leaves text without an underscore unchanged |
| SubstitutionRules.UntagRestores | utils/name_substitution_utils.py:21-22 | rules 6 and 7 together give back any tagged word as it was, tag removed, whether or not it ends with a brand |
| ReplacementSanity.KeepsPrefix | utils/name_substitution_utils.py:72-73 | rules whose key characters are all absent from the text leave it alone, however many run in a row |
| ReplacementSanity.ReplacedWithoutKeyChars | utils/name_substitution_utils.py:70-74 | a text containing no key character of any rule comes back unchanged |
| ReplacementSanity.TagRulesIdle | utils/name_substitution_utils.py:12-15 | without `P`, `W`, `D` or a double quote, rules 1-4 change nothing |
| ReplacementSanity.ReplacedPlain | utils/name_substitution_utils.py:70-74 | on text where no word can be tagged, `replace_text` is exactly the main rule |
| ReplacementSanity.ProtectedPhraseKept | utils/name_substitution_utils.py:12-14 | a text made of one word without an underscore followed by ` Root Program`, ` Web Store`, ` Webstore` or ` Remote Desktop` survives `replace_text`, and ` Webstore` becomes ` Web Store` |
| ReplacementSanity.LaterRulesRestore | utils/name_substitution_utils.py:15-22 | rules 4-7 turn a tagged word followed by a canonical phrase back into the word and the phrase |
| ReplacementSanity.RootProgramFixture | utils/name_substitution.py:25 | `Chrome Root Program` maps to itself |
| ReplacementSanity.SpacedFixture | utils/name_substitution.py:26 | ` Chrome  ` maps to ` Helium  ` |
| ReplacementSanity.ChromeWebStoreFixture | utils/name_substitution.py:27 | `Chrome Web Store` maps to itself |
| ReplacementSanity.ChromiumWebStoreFixture | utils/name_substitution.py:28 | `Chromium Web Store` maps to itself |
| ReplacementSanity.RemoteDesktopFixture | utils/name_substitution.py:29 | `Chrome Remote Desktop` maps to itself |
| ReplacementSanity.WebstoreNormalised | utils/name_substitution_utils.py:13 | `Chrome Webstore` becomes `Chrome Web Store` |
| ReplacementSanity.GoogleChromeFixture | utils/name_substitution.py:30 | `Google Chrome` maps to `Helium` |
| ReplacementSanity.SequenceFixture | utils/name_substitution.py:31 | `Chrome Google Chrome Chrome Chromium` maps to `Helium Helium Helium Helium`: each occurrence is replaced on its own |
| ReplacementSanity.ChromeFixture | utils/name_substitution.py:32 | `Chrome` maps to `Helium` |
| ReplacementSanity.ChromiumFixture | utils/name_substitution.py:33 | `Chromium` maps to `Helium` |
| ReplacementSanity.BrandAlone | utils/name_substitution.py:30-33 | any brand spelling on its own, with or without `Google `, maps to `Helium` |
| ReplacementSanity.RebrandSpacedBrands | utils/name_substitution.py:31 | any sequence of brand spellings separated by single spaces maps to as many `Helium`s |
| ReplacementSanity.SchemeNotRewritten | utils/name_substitution.py:24 | `chrome://about` passes unchanged, so the fixture expecting `helium://about` does not hold for these rules |
| ReplacementSanity.LowerCaseKept | utils/name_substitution_utils.py:18 | the main rule is case-sensitive: `chrome` is kept |
| ReplacementSanity.LongerWordKept | utils/name_substitution_utils.py:18 | `Chromebook` is kept |
| ReplacementSanity.NoLeftBoundary | utils/name_substitution_utils.py:18 | there is no left anchor: `MyChrome` becomes `MyHelium` |
| ReplacementSanity.NotIdempotent | utils/name_substitution_utils.py:22 | a tag already in the input is deleted too, which can form a brand name, so applying `replace_text` twice differs from applying it once |
| Grit.StripForFp | utils/name_substitution_utils.py:37-48 | the result is a contiguous slice of the input with no whitespace at either end |
| Grit.StripForFpUnquotes | utils/name_substitution_utils.py:43-48 | a body quoted with `'''` on both sides, with whitespace around it, loses the quotes and the whitespace |
| Grit.StripForFpNotIdempotent | utils/name_substitution_utils.py:44-47 | only one marker is dropped at each end: nine quotes give three, and three give nothing |
| Grit.StripForFpLeadingSpace | utils/name_substitution_utils.py:43 | whitespace before the text does not survive |
| Grit.PlaceholderText | utils/name_substitution_utils.py:62-63 | the placeholder part is undefined exactly when some direct `ph` child has no `name` (where Python raises) |
| Grit.ComputeFp | utils/name_substitution_utils.py:51-67 | the fingerprint is undefined exactly when some direct `ph` child lacks a name |
| Grit.FpIgnoresOtherChildren | utils/name_substitution_utils.py:62-63 | a child that is not a `ph` changes no fingerprint, wherever it is inserted |
| Grit.FpIgnoresPlaceholderContent | utils/name_substitution_utils.py:62-63 | only a `ph`'s name and tail count: its inner text, other attributes and children do not |
| Grit.FpIgnoresLeadingSpace | utils/name_substitution_utils.py:61-64 | whitespace before the message text does not change the fingerprint |
| Grit.ReplaceGritMessageShape | utils/name_substitution_utils.py:77-84 | the rewrite keeps tags, attributes and the number of children at every level |
| Grit.ReplaceGritMessageSlots | utils/name_substitution_utils.py:77-84 | the rewrite turns exactly the truthy text slots of the subtree, the message's own tail included, into their `replace_text`, in document order |
| Grit.MessagePathsMembers | utils/name_substitution_utils.py:92 | `findall('.//message')` finds every `message` element strictly below the root, and nothing else |
| Grit.MessagePathsOrdered | utils/name_substitution_utils.py:92 | the messages are found in document order (an element before its descendants, an earlier child's subtree before a later one), each once |
| Grit.ReplaceGritTree | utils/name_substitution_utils.py:87-100 | the loop equals the reference: each message in document order is read from the tree as earlier rewrites left it, rewritten, and its fingerprint change recorded |
| Grit.RecordChangesKeys | utils/name_substitution_utils.py:97-98 | an old fingerprint is a key exactly when some message had it and its fingerprint changed |
| Grit.RecordChangesLatest | utils/name_substitution_utils.py:97-98 | the value for a key is the new fingerprint of the last message that changed it |
| Grit.NoMessagesNoChange | utils/name_substitution_utils.py:87-100 | a tree with no message comes back unchanged with an empty map |
| Grit.RewriteMessagesInvariant | utils/name_substitution_utils.py:92-98 | rewriting messages succeeds exactly when none has an unnamed `ph`; then the tree keeps its shape and there is one change per message |
| Grit.GritTreeOutcomeShape | utils/name_substitution_utils.py:87-100 | `replace_grit_tree` raises exactly when some message has an unnamed `ph`; otherwise the tree keeps its shape |
| Grit.MergeFpMaps | utils/name_substitution_utils.py:103-114 | the loop equals the in-order `dict.update` of the present maps |
| Grit.MergedMapsKeys | utils/name_substitution_utils.py:108-113 | a key is merged exactly when some present map has it; `None` results contribute nothing |
| Grit.MergedMapsLatest | utils/name_substitution_utils.py:113 | a merged value comes from the last present map holding its key |
| NameSubstitution.SubstitutableFiles | utils/name_substitution.py:62-90 | the nested loops yield exactly the reference list of selected files, directory by directory in walk order |
| NameSubstitution.SelectedFilesMembers | utils/name_substitution.py:68-90 | a path is yielded exactly when its directory was walked, the file is listed there, and the per-file decision keeps it |
| NameSubstitution.SkippedDirSelectsNothing | utils/name_substitution.py:72-82 | a directory below `tree/out` or with an ignored component yields nothing |
| NameSubstitution.OutDirItselfNotSkipped | utils/name_substitution.py:72 | files directly in `tree/out` are not skipped, one level further down they are |
| NameSubstitution.IgnoredAboveTree | utils/name_substitution.py:76-78 | an ignored name among the tree's own components excludes every file |
| NameSubstitution.ExtensionAfterDot | utils/name_substitution.py:87 | the extension is the lower-cased text after the last dot |
| NameSubstitution.ExtensionWithoutDot | utils/name_substitution.py:87 | a name without a dot is its own extension |
| NameSubstitution.SubstituteGritFile | utils/name_substitution.py:93-115 | the result is present exactly when the fingerprint map is non-empty; the backup pair is present exactly when originals are saved; the file is written exactly when it changed and this is not a dry run |
| NameSubstitution.SubstituteXtbFile | utils/name_substitution.py:118-140 | the result is absent exactly when the rewriter's result is falsy; the backup is present exactly when originals are saved; the rewritten text is written unless this is a dry run |
| NameSubstitution.PresentGrd | utils/name_substitution.py:174 | the kept string-file results are all string-file results |
| NameSubstitution.PresentGrdInOrder | utils/name_substitution.py:174 | entry `j` of the kept list is the `j`-th present result: the indices increase and cover every present result, so each is kept once, in order |
| NameSubstitution.PresentGrdCount | utils/name_substitution.py:174 | the kept list has as many entries as there are present results |
| NameSubstitution.DoSubstitution | utils/name_substitution.py:165-185 | the run stops with no result exactly when some string-file step raised; otherwise the translation phase gets the merge of the string-file maps only, and the modified list is the present string-file results followed by the present translation-file results |
| NameSubstitution.MergedMapsOfPresent | utils/name_substitution.py:174-176 | merging after dropping the absent results gives the same map as merging all results |
| HeliumVersion.ReadLineSpec | utils/helium_version.py:23 | `readline` gives a prefix with no newline before its last character, ending at a newline unless it is the whole text |
| HeliumVersion.VersionPartOfDotted | utils/helium_version.py:17-23 | a file starting with a dotted version yields its first number |
| HeliumVersion.VersionPartOfLine | utils/helium_version.py:23 | a first line holding only a number yields it, the newline stripped |
| HeliumVersion.Sources | utils/helium_version.py:51-58 | three sources, or four when a platform tree is given |
| HeliumVersion.GetVersionParts | utils/helium_version.py:49-64 | the method equals the reference part list for the sources in key order |
| HeliumVersion.ReadParts | utils/helium_version.py:60-64 | the loop equals the reference part list; it stops where a file does not parse |
| HeliumVersion.PartsOfSpec | utils/helium_version.py:60-64 | the parts exist exactly when every file parses; then they carry the source names in order, each valued at the file's number plus its delta |
| HeliumVersion.DeltaOfParts | utils/helium_version.py:62 | only the minor part is shifted, by minus 136 |
| HeliumVersion.PartsOfThreeFiles | utils/helium_version.py:51-63 | without a platform tree the parts are major, minor and patch, in that order, and only minor is shifted |
| HeliumVersion.VersionPartsOfDotted | utils/helium_version.py:49-64 | for dotted version files, Chromium 137 gives minor 1 and the other numbers pass unchanged |
| HeliumVersion.PrintedVersionParses | utils/helium_version.py:73 | the printed version splits on `.` into one field per part, each reading back as the file's number plus its delta |
| HeliumVersion.VersionLinesSplit | utils/helium_version.py:78-79 | the appended text is exactly one `NAME=value` line per part, in order, each ended by a newline |
| HeliumVersion.AppendVersions | utils/helium_version.py:76-79 | refused exactly when the file contains `HELIUM`; otherwise the new content is the old content followed by the lines |
| HeliumVersion.AppendedIsVersioned | utils/helium_version.py:76-79 | after an append the file mentions `HELIUM`, so a second run is refused |
| HeliumVersion.RunVersion | utils/helium_version.py:67-79 | a file that does not parse fails first; print mode prints the dotted version; append mode fails exactly when `HELIUM` is present and otherwise appends the lines |
| ResourceLines.ErrorOf | utils/generate_resources.py:52-55 | a wrong token count is reported by its 1-based line number, a bad size by its token |
| ResourceLines.ContentLineTokens | utils/generate_resources.py:39-43 | a line that is not skipped has a first token, which does not start with `#` |
| ResourceLines.IndentedCommentSkipped | utils/generate_resources.py:39-41 | a comment is skipped however far it is indented |
| ResourceLines.TokensOfJoin | utils/generate_resources.py:43 | a line of space-separated tokens splits back into those tokens |
| GenerateResources.ParseLine | utils/generate_resources.py:39-55 | a line is skipped exactly when it is blank or a comment; it is refused for its token count exactly when it has neither 2 nor 3 tokens; an accepted line has input and output under the resource directory, named by the first and last tokens, and a size exactly when it has 3 tokens |
| GenerateResources.GenerateResources | utils/generate_resources.py:32-59 | the loop equals the reference run over the lines in file order, stopping at the first invalid line |
| GenerateResources.GeneratedClean | utils/generate_resources.py:38-59 | a list without invalid lines yields one job per content line, in order, and no error |
| GenerateResources.GeneratedStopsAt | utils/generate_resources.py:38-55 | at the first invalid line, all earlier jobs are done and the error names that line |
| GenerateResources.WrongCountRefused | utils/generate_resources.py:54-55 | a line with neither 2 nor 3 tokens, after valid lines, is reported by its 1-based number |
| GenerateResources.GeneratedUnderDir | utils/generate_resources.py:45-53 | every input and output lies in the resource directory |
| GenerateResources.TwoTokenLine | utils/generate_resources.py:45-50 | two tokens give the input, no size, and the output |
| GenerateResources.ThreeTokenLine | utils/generate_resources.py:45-53 | three tokens give the input, the size the middle token spells, and the output |
| GenerateResources.SizeLabelReadsBack | utils/generate_resources.py:58 | the label of a size is `{s}x{s}` and splits on `x` into two copies that read back as the size; it differs from `undefined` |
| ReplaceResources.ParseLine | utils/replace_resources.py:22-32 | a line is skipped exactly when it is blank or a comment, and refused exactly when it does not have two tokens |
| ReplaceResources.CopyResources | utils/replace_resources.py:15-35 | the loop equals the reference run over the lines in file order, stopping at the first invalid line |
| ReplaceResources.CopiedClean | utils/replace_resources.py:21-34 | a list without invalid lines yields one copy per content line, in order, and no error |
| ReplaceResources.CopiedStopsAt | utils/replace_resources.py:21-35 | copies for earlier lines are done before the error, which names the first invalid line |
| ReplaceResources.CopiedIntoTree | utils/replace_resources.py:31-32 | every source lies in the resource directory and every destination in the Chromium tree |
| ReplaceResources.CopiedErrorIsLine | utils/replace_resources.py:28-29 | the only error is an invalid line, numbered from 1 |
| ReplaceResources.TwoTokenLine | utils/replace_resources.py:31-32 | the first token names the source and the second the destination |

## Left out

- XML parsing and serialisation (`ET.fromstring`, `ET.tostring`) are foreign library code. A tree is given as an `Elem` value and serialising is a parameter. A text that does not parse is not modelled.
- NameSubstitution.SubstituteGritFile: models the intended write of the rewritten text. As written, `replace_grit_tree` returns the `bytes` of `ET.tostring` (`utils/name_substitution_utils.py:100`), and `substitute_grit_file` writes them to a file opened in text mode (`utils/name_substitution.py:111-112`). Opening the file for writing empties it first, and writing `bytes` there raises `TypeError`. So outside a dry run, a modified string file would be left empty and the worker would raise. The model does not capture the emptied file or the exception.
- `GenerateMessageId` is foreign code. It is the function parameter `genId`: equal inputs give equal ids, and nothing else is assumed.
- `add_grit_to_path` changes `sys.path`, which is process state, so it is not modelled.
- `replace_xtb_tree` is not part of this model. Its result for a translation file is an input (`replaced`, `xtbPhase`).
- The tarball backup and restore are not modelled. `do_unsubstitution` and `maybe_make_tarball` are file I/O.
- Other I/O is not modelled: `os.walk` is given as a walk listing, files are read and written as strings, and the `ProcessPoolExecutor` fan-out, `argparse` parsing and `print` messages are left out.
- In the resource lists, the PIL `scale_image` and `shutil.copyfile` side effects are not modelled. The work list records each job or copy in the order it would happen.
- `os.path.join` and pathlib's `/` are kept symbolic (`Path.Under`). Absolute tokens and `..` are not resolved.
- `Grit.ReplaceGritTree`, `Grit.ReplaceGritMessage`: ElementTree updates nodes in place. The model rewrites a tree value at each message's path, in the same order. Nested messages are rewritten twice, as in the source. Object identity and aliasing are not modelled.
- A file is given as its sequence of lines. Python's universal-newline handling is not modelled.
- An error keeps only the line number or the offending token, not the message text.
- `\w` is the ASCII set `[A-Za-z0-9_]`; Python's Unicode-aware `\w` is wider. Whitespace is Python's `str.isspace` set. `upper` and `lower` change ASCII letters only.
- `HeliumVersion.VersionPart`: `int()` is an optionally signed decimal literal. Surrounding whitespace is allowed; underscores and non-ASCII digits are not.
- The `chrome://about` fixture and the `(text, match)` unpacking in `replacement_sanity` are not modelled as holding. `replace_text` returns one string and has no scheme rule. `ReplacementSanity.SchemeNotRewritten` shows the scheme is kept.
- As written, `replacement_sanity` unpacks the single string `replace_text` returns into two names. For the first fixture, a 14-character string, that raises `ValueError` before any comparison. The fixture lemmas state the comparisons the function intends.
- ReplacementSanity.ProtectedPhraseKept: proved for a text that is exactly the word and the phrase. A protected phrase inside longer surrounding text is not covered.
- The rule-4 link region is covered by rule 4 alone (`SubstitutionRules.LinkTagsChromium`). No lemma runs the whole pipeline over a `BEGIN_LINK_CHROMIUM` link.
- `main`'s argument parsing and the reading of files in `helium_version.py` are not modelled. `HeliumVersion.RunVersion` takes the file contents.
