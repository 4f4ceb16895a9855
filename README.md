# apollo-quick-start SQL sync, modelled in Dafny

`scripts/sync_from_apollo_release.py` rebuilds the quick-start copies of
Apollo's two MySQL dumps, `sql/apolloconfigdb.sql` and
`sql/apolloportaldb.sql`, from an Apollo release checkout. It does three
things to each dump:

- It splices a local sample-data overlay in front of the dump's footer
  statement `/*!40111 SET SQL_NOTES=@OLD_SQL_NOTES */;`.
- For the portal dump only, it forces the value of the
  `'configView.memberOnly.envs'` row to `'dev'` with a single regular-expression
  substitution.
- It writes the files, reads them back, and validates them. Validation checks
  that the anchor occurs once, that the overlay occurs once and not after the
  anchor, and, for the portal dump, that exactly one member-only row is found
  and it holds `dev`.

A check-only mode runs the same comparison and validation without writing.

The model has four modules:

- `Text` (`text.dfy`) holds the Python string operations the script uses:
  - `str.count`, with Python's non-overlapping scan and `len + 1` for the
    empty pattern;
  - `str.index`;
  - `strip`, `lstrip` and `rstrip` with the argument `"\n"`.
- `EnvRows` (`env_row.dfy`) matches the script's two regular expressions by
  hand:
  - the rewrite pattern `('configView\.memberOnly\.envs'\s*,\s*)'[^']*'(\s*,)`;
  - the check pattern `'configView\.memberOnly\.envs'\s*,\s*'([^']+)'\s*,`.

  At a given start index each pattern matches in at most one way. So a match
  is an `EnvRow` value recording the indices of its punctuation, and `Shape`
  says when such a value is a match. `subn(count=1)` becomes `FirstRow` plus
  `Substitute`, and `re.findall` becomes `FindRows`.
- `Sync` (`sync.dfy`) holds `_inject_sample_data`,
  `_enforce_portal_member_only_env`, `_validate_sql_output` and the equality
  check of `_assert_same_content`. Each is a function returning `Ok` or
  `Err(SyncError)`.
- `SyncRun` (`sync_run.dfy`) holds `_render_release_sql` and
  `sync_from_apollo_release`:
  - The file system is two maps from relative path to text. One is the Apollo
    checkout, which is only read. The other is the `files` field of the class
    `QuickStartTree`, which the `Sync` method rewrites.
  - `Sync`'s two loops are the methods `WriteOutputs` and `CheckOutputsNow`.
  - The whole run is specified by the functions `SyncedFiles` and
    `SyncOutcome`.

## Model

| member | source | states |
|---|---|---|
| Text.IndexOf | scripts/sync_from_apollo_release.py:66 | `str.index`: the result is an index where the pattern occurs, and no earlier index has an occurrence |
| Text.LStripNewlines | scripts/sync_from_apollo_release.py:68 | `lstrip("\n")`: the result is a suffix of the input; what was removed is all newlines; the result does not start with a newline |
| Text.RStripNewlines | scripts/sync_from_apollo_release.py:67 | `rstrip("\n")`: the result is a prefix of the input; what was removed is all newlines; the result does not end with a newline |
| Text.StripNewlines | scripts/sync_from_apollo_release.py:62-64 | `strip("\n")` is empty exactly when the input is nothing but newlines; otherwise it neither starts nor ends with a newline |
| Text.CountZeroIff | scripts/sync_from_apollo_release.py:56 | `count` of a non-empty pattern is 0 exactly when the pattern occurs at no index |
| Text.CountIsOccurrences | scripts/sync_from_apollo_release.py:56 | for a pattern whose last character occurs nowhere else in it, the non-overlapping `count` equals the number of indices where it occurs |
| Text.CountOnceIff | scripts/sync_from_apollo_release.py:56-57 | for such a pattern, `count == 1` exactly when the pattern occurs at one index and no other |
| Text.CountSplit | scripts/sync_from_apollo_release.py:69 | a character the pattern does not contain splits `count` additively: no match can straddle it |
| Text.CountAcrossBlankLine | scripts/sync_from_apollo_release.py:69 | a pattern without newlines is counted separately on either side of the `"\n\n"` the splice inserts |
| EnvRows.SkipSpace | scripts/sync_from_apollo_release.py:73 | greedy `\s*`: every character skipped is white space, and the character where it stops is not |
| EnvRows.SkipToQuote | scripts/sync_from_apollo_release.py:73 | greedy `[^']*`: no character skipped is a quote, and it stops at a quote or at the end of the text |
| EnvRows.RowAt | scripts/sync_from_apollo_release.py:73 | trying the pattern at one index gives a match exactly when one exists there, and it is the only one there |
| EnvRows.FirstRow | scripts/sync_from_apollo_release.py:73-74 | the regex search gives the leftmost match from the start index, and `None` only when no match starts at or after it |
| EnvRows.FindRowsAreMatches | scripts/sync_from_apollo_release.py:102 | every row that `re.findall` returns is a match of the `[^']+` pattern |
| EnvRows.FindRowsSearches | scripts/sync_from_apollo_release.py:102 | `re.findall` is the search repeated: its first row is the leftmost match from the start index, and it resumes at that match's end; with no match it returns nothing |
| EnvRows.FindRowsEmptyIff | scripts/sync_from_apollo_release.py:102-104 | `re.findall` returns nothing exactly when no match starts at or after the start index |
| EnvRows.NoRowInsideDevRow | scripts/sync_from_apollo_release.py:102 | no match of the check pattern starts strictly inside a match whose value is `dev` |
| EnvRows.CheckSeesOnlyNonEmptyValues | scripts/sync_from_apollo_release.py:73 | a rewrite-pattern match is a check-pattern match exactly when its value is non-empty; an empty-valued row is invisible to the check |
| EnvRows.ShapeUnique | scripts/sync_from_apollo_release.py:73 | two matches at the same index are the same match |
| EnvRows.ShapeMoves | scripts/sync_from_apollo_release.py:73 | whether a match holds depends only on the characters it spans; a copy of them at any offset matches too |
| EnvRows.SubstituteReplacesValue | scripts/sync_from_apollo_release.py:74 | `\1'dev'\2` replaces only the quoted value of the match by `'dev'`; every other character stays; the row then matches both patterns with value `dev` |
| EnvRows.KeyAvoidsValue | scripts/sync_from_apollo_release.py:74 | after the substitution, no occurrence of the key overlaps the written `'dev'` |
| EnvRows.MatchBeforeValue | scripts/sync_from_apollo_release.py:73-74 | a match in the substituted text that ends before the value was already a match in the original |
| EnvRows.MatchAcrossValue | scripts/sync_from_apollo_release.py:73-74 | a match whose key precedes the value and which reaches into it opens its value at the written quote and closes it after `dev`, and its key reads, in the original text, as a match with the old value |
| EnvRows.MatchAfterValue | scripts/sync_from_apollo_release.py:73-74 | a match that starts after the value is a shifted match of the original |
| EnvRows.ReplacedRowStart | scripts/sync_from_apollo_release.py:73-74 | if the original holds one match, every match in the substituted text starts where that match did |
| EnvRows.SubstituteLeavesOneRow | scripts/sync_from_apollo_release.py:73-74 | if the original holds one match, the `'dev'` row is the only match after the substitution |
| EnvRows.FindRowsNone | scripts/sync_from_apollo_release.py:102-103 | `re.findall` returns nothing when no match starts at or after the start index |
| EnvRows.FindRowsOnly | scripts/sync_from_apollo_release.py:102-103 | `re.findall` returns exactly the one match the text holds |
| Sync.AnchorFacts | scripts/sync_from_apollo_release.py:13 | the footer anchor starts with `/`; its final `;` occurs nowhere else in it; it contains no newline and no quote |
| Sync.AnchorCountIsPositions | scripts/sync_from_apollo_release.py:56 | `count` of the anchor equals the number of positions where it occurs |
| Sync.InjectSampleData | scripts/sync_from_apollo_release.py:55-69 | success implies the anchor occurs exactly once in the base text and the overlay is not all newlines |
| Sync.InjectFailures | scripts/sync_from_apollo_release.py:56-64 | injection fails exactly when the anchor is not at exactly one position or the overlay is only newlines (other white space does not count); the anchor error comes first and reports the count |
| Sync.InjectWithoutAnchor | scripts/test_sync_from_apollo_release.py:79-85 | the test's base text without an anchor is rejected with an anchor count of 0 |
| Sync.InjectSplices | scripts/sync_from_apollo_release.py:66-69 | the output is the base up to the anchor with its trailing newlines removed, a blank line, the trimmed overlay, a blank line, and the base from the anchor on, unchanged |
| Sync.InjectAnchorCount | scripts/sync_from_apollo_release.py:66-69 | the output holds one more anchor than the trimmed overlay; it holds the anchor exactly once exactly when the overlay holds none |
| Sync.InjectBlockBeforeAnchor | scripts/test_sync_from_apollo_release.py:31-34 | when the overlay holds no anchor, the first index of the trimmed overlay in the output is less than the anchor's |
| Sync.EnforceFailsIffNoRow | scripts/sync_from_apollo_release.py:72-77 | the rewrite fails, with its own error, exactly when no row matches; several rows are no error |
| Sync.EnforceRewritesFirstRow | scripts/sync_from_apollo_release.py:73-74 | the rewrite puts `'dev'` in place of the leftmost match's value and keeps every other character, later matching rows included |
| Sync.EnforceThenCheck | scripts/test_sync_from_apollo_release.py:36-45 | for a text with one member-only row, the rewritten text has exactly that row, holding `dev`, and it passes the validator's row check; for example, `'pro'` becomes `'dev'` and no `'pro'` row remains |
| Sync.EnforceAnchorCount | scripts/sync_from_apollo_release.py:73-74 | the rewrite removes exactly the anchors inside the replaced value and keeps all others |
| Sync.CheckMemberOnlyEnvMeaning | scripts/sync_from_apollo_release.py:101-112 | the row check passes only on a text whose first found row holds `dev` and is its only non-empty-valued row, so a second such row makes it fail; with exactly one such row it passes exactly when that value is `dev`; with none it reports a count of 0 |
| Sync.CheckPassesOnOneRow | scripts/sync_from_apollo_release.py:102-107 | when the row check passes, every match of the check pattern in the text is the one row `re.findall` returned |
| Sync.ValidateMeaning | scripts/sync_from_apollo_release.py:80-112 | validation passes exactly when the anchor occurs once, the overlay is not all newlines, `count` finds the trimmed overlay once, its first occurrence is not after the anchor, and, when asked, the row check passes |
| Sync.ValidateAcceptsBlockAtAnchor | scripts/sync_from_apollo_release.py:87-98 | when `count` finds the anchor and the trimmed overlay once each, validation without the row check passes exactly when the overlay's first index is at most the anchor's: an overlay at the anchor's own index passes, only one after it fails |
| Sync.BlockAtAnchorExample | scripts/sync_from_apollo_release.py:98 | an example of an overlay at the anchor's own index: a text that is the anchor alone, with the anchor as its overlay, validates |
| Sync.InjectThenValidate | scripts/sync_from_apollo_release.py:55-99 | an injected text passes validation without the row check exactly when `count` finds the overlay once, provided the overlay holds no anchor |
| Sync.AssertSameContent | scripts/sync_from_apollo_release.py:115-117 | the comparison succeeds exactly when the file holds the expected text; otherwise the error names the path |
| SyncRun.Render | scripts/sync_from_apollo_release.py:132-172 | a successful render gives the config and portal outputs in that order, each carrying its raw overlay; the config text is the config SQL with its overlay spliced in, and the portal text is the portal SQL with its overlay spliced in and then rewritten to `'dev'` |
| SyncRun.RenderFailures | scripts/sync_from_apollo_release.py:138-159 | a missing input is reported first, the first missing one in the order config SQL, portal SQL, config overlay, portal overlay; with all four present, rendering fails exactly when a splice or the rewrite fails |
| SyncRun.RenderedConfigValidates | scripts/sync_from_apollo_release.py:148-152 | the rendered config file validates exactly when `count` finds its overlay in it once, provided the overlay holds no anchor |
| SyncRun.RenderedPortalHoldsDevRow | scripts/sync_from_apollo_release.py:153-159 | the rendered portal file holds a row of the check's pattern whose value is `dev` |
| SyncRun.RenderReadsOnlyOverlays | scripts/sync_from_apollo_release.py:135-146 | rendering depends on the quick-start checkout only through the two overlay files |
| SyncRun.OutputPathsSorted | scripts/sync_from_apollo_release.py:182 | the config output sorts before the portal output, and neither output path is an overlay path |
| SyncRun.Paths | scripts/sync_from_apollo_release.py:201 | the returned list holds each output's path, in order |
| SyncRun.WriteAllWrites | scripts/sync_from_apollo_release.py:185-186 | after the write loop, each output path holds its rendered text |
| SyncRun.WriteAllKeeps | scripts/sync_from_apollo_release.py:185-186 | the write loop leaves every other path as it was |
| SyncRun.WriteAllUnchanged | scripts/sync_from_apollo_release.py:185-186 | writing texts the checkout already holds changes nothing |
| SyncRun.CheckOutputMeaning | scripts/sync_from_apollo_release.py:189-199 | one output passes when it exists, holds its rendered text, and that text validates, with the row check for the portal file only |
| SyncRun.CheckOutputsOk | scripts/sync_from_apollo_release.py:188-199 | the check loop passes exactly when every output passes |
| SyncRun.WriteRendered | scripts/sync_from_apollo_release.py:184-186 | writing the two rendered outputs puts each text at its path and leaves every other file alone |
| SyncRun.SyncWritesOutputs | scripts/sync_from_apollo_release.py:184-186 | a writing run stores each rendered text and changes no other file, the overlays included |
| SyncRun.RunAgain | scripts/sync_from_apollo_release.py:184-199 | rerunning on a written checkout writes nothing new and reports the same outcome, whether or not it writes |
| SyncRun.SyncIdempotent | scripts/test_sync_from_apollo_release.py:47-71 | running twice gives the same files and the same outcome as running once |
| SyncRun.CheckAfterSync | scripts/test_sync_from_apollo_release.py:73-77 | a check-only run after a run reports what that run reported |
| SyncRun.CheckOnlyPassesWhenSynced | scripts/sync_from_apollo_release.py:184-199 | a check-only run passes exactly when rendering succeeds and every output already sits in the checkout and validates; then a writing run would change nothing |
| SyncRun.QuickStartTree.constructor | scripts/sync_from_apollo_release.py:175-180 | the tree starts with the given files |
| SyncRun.QuickStartTree.Sync | scripts/sync_from_apollo_release.py:175-201 | the new files and the result are those of `SyncedFiles` and `SyncOutcome`; a check-only run leaves the files unchanged |
| SyncRun.QuickStartTree.WriteOutputs | scripts/sync_from_apollo_release.py:184-186 | the write loop stores the outputs in order, as `WriteAll` says |
| SyncRun.QuickStartTree.CheckOutputsNow | scripts/sync_from_apollo_release.py:188-199 | the check loop returns the first failure, as `CheckOutputs` says, and passes exactly when every output is in sync; it changes nothing |

## Left out

- File I/O failures are not modelled. The model has no "Unable to read file" or
  "Unable to write file" errors: reading is a map lookup and writing always
  succeeds. Text decoding is not modelled: a file is a sequence of code points.
- Paths are plain strings relative to each checkout. The roots, path joining,
  `resolve`, `relative_to` and the `Path` type are left out. `sorted` is the
  fixed config-then-portal order, justified by `SyncRun.OutputPathsSorted`.
- Errors carry the values their messages show, not the message text. The
  unified-diff preview of `_assert_same_content` is a library call and is left
  out: a mismatch reports the path only.
- `parse_args`, `main`, printing and exit codes are command-line plumbing and
  are left out.
- EnvRows.IsSpace: `\s` is the ASCII set space, tab, newline, carriage return,
  vertical tab and form feed. Python's `re` also matches other Unicode
  white space in `str` patterns, for example `\x1c`-`\x1f`, `\x85` and `\xa0`.
- Text.IndexOf requires an occurrence. Python raises `ValueError` otherwise,
  but the script calls `index` only after `count` has found the pattern.
- The general regular-expression engine is left out. Only the two fixed
  patterns are modelled, by the matcher in `EnvRows`.
- The model follows the code where the code and its test differ in strength:
  - The test asserts that the overlay comes strictly before the anchor
    (`assertLess`, scripts/test_sync_from_apollo_release.py:34). The validator
    fails only when the overlay's index is greater than the anchor's
    (scripts/sync_from_apollo_release.py:98), so an overlay found at the
    anchor's own index passes (`Sync.ValidateAcceptsBlockAtAnchor`).
  - `_inject_sample_data` (scripts/sync_from_apollo_release.py:55-69) never
    counts the overlay in its output; only `_validate_sql_output` does (lines
    94-96). A base text that already contains the overlay is therefore
    injected without error and rejected only by validation.
    `Sync.InjectThenValidate` shows that this count is the only check an
    injected config file can fail, given an overlay without the anchor.
