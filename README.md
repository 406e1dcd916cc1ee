# GDM configuration patcher of the AnyDesk unattended-access helper

`InstallAnyDesk.py` prepares an Ubuntu machine for AnyDesk unattended
access. Its one piece of real logic is `ensure_line_in_section`, a
section-scoped INI patcher built from three `re.MULTILINE` regular
expressions. Around it sit three small steps over `/etc/gdm3/custom.conf`:

- `backup_file` copies the file to a time-stamped backup name, or raises when the file is missing;
- `disable_wayland_in_gdm` puts `WaylandEnable=false` into `[daemon]`;
- `enable_gdm_autologin` puts `AutomaticLoginEnable=true` and then `AutomaticLogin=<user>` into `[daemon]`.

Both GDM steps back the file up first, patch the text in memory, and write it
back only when it changed.

The model has eight modules:

- `TextScan`: Python's `\s` (the `str.isspace` set, `'\n'` included), the
  multiline anchors `^` and `$`, and the scans the patterns are made of. The
  greedy-then-backtracking `\s*$` is `SpacesToLineEnd`.
- `Patterns`: the three patterns as "does it match at offset p" functions and
  leftmost searches:
  - the section header `^\[<section>\]\s*$`;
  - any header `^\[.+?\]\s*$`;
  - the key line `^\s*<key>\s*=\s*.*$`, whose leading `\s*` backtracks
    (`KeyFrom`).
- `SectionPatch`: `ensure_line_in_section` itself. `Locate` finds the header
  and the body's extent, `Upsert` rewrites the body, and
  `EnsureLineInSection` splices the body back.
- `PatchProperties`: what the patcher guarantees, and where it does not
  behave like a line-based INI editor.
- `GdmSetup`: the file system as a class with a path-to-text map and a log of
  copies and writes, with `BackupFile`, `DisableWaylandInGdm` and
  `EnableGdmAutologin` as methods over it.
- `GdmScenarios`: the Wayland step on concrete shapes of `custom.conf`.
- `LooseKeyPattern`: how far the key pattern reaches on bodies the patcher
  really sees (a header's newline, then a first line, then the key line).
  A line such as `WaylandEnable = true`, blanks around `=`, is replaced whole
  and nothing after it. The pattern's `\s*` crossing newlines has other
  effects: a `key=` with an empty value is rewritten together with the line
  after it, or, on the body's last line, together with the body's final
  newline; empty lines just above a key line are removed by the rewrite.
- `Wrappers`: `Option` and `Result`.

The model follows the code, and the code is looser than its docstring
("Replace existing key in that section if present"). Only the leftmost key
match is rewritten, but that match can reach past its own line: a `key=`
line with an empty value is rewritten together with the line after it, so a
duplicate `key=w` line just below it is lost as well
(`LooseKeyPattern.EmptyValueSwallowsDuplicate`; the body `\nfoo\nk=\nk=w\n`
becomes `\nfoo\nk=v\n`). The key pattern's
leading `\s*` may start at body offset 0 and cross newlines. So when the key
line sits directly under its header, the header's own newline is taken into
the match. `[daemon]\nWaylandEnable=false\n` becomes
`[daemon]WaylandEnable=false\n`, even though the line was already there.

That rewritten header line no longer matches `^\[daemon\]\s*$`. The next run
therefore appends a second `[daemon]` block. The helper's "no change" report
is guaranteed under the conditions of
`PatchProperties.ReapplyLeavesPatchedTextUnchanged`, and
`GdmScenarios.WaylandRerunsDoNotSettle` shows two successive runs that both
change the text.

## Model

| member | source | states |
|---|---|---|
| TextScan.SpaceRunEnd | InstallAnyDesk.py:75 | a greedy `\s*` from i takes whitespace only, stops at a non-space or the end, and no longer all-space run exists |
| TextScan.IsSpace | InstallAnyDesk.py:75 | definition: Python's `\s` on str patterns, the `str.isspace` set, `'\n'` included |
| TextScan.LineStart | InstallAnyDesk.py:57 | definition: `^` under `re.MULTILINE` holds at offset 0 and right after each `'\n'` |
| TextScan.AtLineEnd | InstallAnyDesk.py:70 | definition: `$` under `re.MULTILINE` holds at the end of the text and right before each `'\n'` |
| TextScan.NextLineEnd | InstallAnyDesk.py:75 | a greedy `.*` followed by `$` stops at the first `$` position, crossing no newline |
| TextScan.SpacesToLineEnd | InstallAnyDesk.py:57 | `\s*$` at q ends at the largest e where `$` holds and q..e is whitespace; None exactly when no such e exists |
| TextScan.SpacesToLineEndIffBlankRest | InstallAnyDesk.py:57 | `\s*$` matches at q if and only if the rest of q's line is whitespace |
| TextScan.NextLineEndAt | InstallAnyDesk.py:75 | `.*$` from y ends at z whenever y..z has no newline and `$` holds at z |
| TextScan.NextLineEndSkip | InstallAnyDesk.py:75 | `.*$` reaches the same line end from every offset of a stretch without newlines |
| Patterns.FindHeaderFrom | InstallAnyDesk.py:57-58 | the search from i returns the first offset where the header pattern matches, and None only when it matches nowhere from i on |
| Patterns.FindHeader | InstallAnyDesk.py:57-58 | the first header match in document order, or None if and only if the header pattern matches at no offset |
| Patterns.HeaderMatch | InstallAnyDesk.py:57 | a header match at p starts a line reading `[section]` and covers only whitespace after `]` up to a line end; the greedy `\s*$` takes the last such line end, so blank lines after the header belong to the match |
| Patterns.HeaderMatchIffHeaderLine | InstallAnyDesk.py:57 | the header pattern matches at p if and only if p starts a line reading `[section]` followed only by whitespace to the end of the line; leading whitespace or text after `]` fails |
| Patterns.NextHeaderFrom | InstallAnyDesk.py:70 | the search for `^\[.+?\]\s*$` returns the first offset where a header line starts, and None only when there is none |
| Patterns.ClosesAt | InstallAnyDesk.py:70 | definition: the lazy `.+?` covers at least one character and no newline between the `[` at p and a `]` at k, and `\s*$` matches after that `]`; its meaning is stated by AnyHeaderAtIffBracketLine |
| Patterns.AnyHeaderAt | InstallAnyDesk.py:70 | definition: `^\[.+?\]\s*$` matches at p when some `]` of p's line closes it; its meaning is stated by AnyHeaderAtIffBracketLine |
| Patterns.AnyHeaderAtIffBracketLine | InstallAnyDesk.py:70 | `^\[.+?\]\s*$` matches at p if and only if p starts a line that opens with `[` and has a `]`, at least two characters on, followed only by whitespace to the end of the line |
| Patterns.AfterKey | InstallAnyDesk.py:75 | a match of `\s*=\s*.*$` after the key ends after k and at a line end |
| Patterns.AfterKeyEnd | InstallAnyDesk.py:75 | a match of `\s*=\s*.*$` after the key needs `=` as the first non-space character there, and ends at the end of the line on which the whitespace after `=` stops |
| Patterns.AfterKeyIffEqualsAfterSpaces | InstallAnyDesk.py:75 | `\s*=\s*.*$` matches after the key if and only if the first non-space character there is `=` |
| Patterns.KeyAt | InstallAnyDesk.py:75 | definition: the key text and `\s*=\s*.*$` match from j; its meaning is stated by KeyAtIffKeyThenEquals |
| Patterns.KeyAtIffKeyThenEquals | InstallAnyDesk.py:75 | the key pattern can take its key from j if and only if the key text is at j and the first non-space character after it is `=` |
| Patterns.KeyEnd | InstallAnyDesk.py:75 | a key match ends past the key, at a line end |
| Patterns.KeyEndExact | InstallAnyDesk.py:75 | a key match ends at the end of the line on which the whitespace after its `=` stops |
| Patterns.KeyEndAtKeyLineEnd | InstallAnyDesk.py:75 | when a visible character follows `=` on the key's own line, the match ends at the end of that line and takes nothing after it |
| Patterns.RunStopsAt | InstallAnyDesk.py:75 | a greedy `\s*` stops at or before the first non-space character |
| Patterns.KeyFrom | InstallAnyDesk.py:75 | the backtracking leading `\s*` settles on the longest whitespace run after which the key and `\s*=` match |
| Patterns.KeyMatch | InstallAnyDesk.py:75 | the key pattern at p: p is a line start, only whitespace precedes the key text, the key is followed by `\s*=`, and the match ends at a line end; None when no whitespace run from a line start reaches the key |
| Patterns.FindKeyFrom | InstallAnyDesk.py:75-76 | the search from i returns the first offset where the key pattern matches, and None only when it matches nowhere from i on |
| Patterns.FindKey | InstallAnyDesk.py:75-76 | the leftmost key match in the body, or None if and only if the key pattern matches nowhere |
| Patterns.LongerNameNeverMatches | InstallAnyDesk.py:75 | key text followed by a character other than whitespace or `=` is never the key of a match |
| Patterns.OnlySpaceBeforeKeyOnLine | InstallAnyDesk.py:75 | on the key's own line only whitespace precedes a matched key |
| Patterns.CommentedKeyNeverMatches | InstallAnyDesk.py:75 | key text after a `#` on the same line is never the key of a match |
| SectionPatch.WithFinalNewline | InstallAnyDesk.py:62-63 | the text gains one `'\n'` exactly when it does not end in one (the empty text included); otherwise it is returned as is |
| SectionPatch.Locate | InstallAnyDesk.py:57-71 | None if and only if no header matches; otherwise the first header match and a body end at the first any-header line of the rest, or at the end of the text |
| SectionPatch.Upsert | InstallAnyDesk.py:75-82 | `key=value` fills a whole line of the rewritten body, from a line start to a line end, whether the leftmost key match was replaced or the line appended |
| SectionPatch.SplicedLineWhole | InstallAnyDesk.py:77 | proof step: text put in place of a stretch from a line start to a line end fills a whole line |
| SectionPatch.AppendedLineWhole | InstallAnyDesk.py:80-82 | proof step: a line appended after a final newline, and ended by one, fills a whole line |
| SectionPatch.OccursInside | InstallAnyDesk.py:84 | proof step: text found in the rewritten body is found in the spliced result |
| SectionPatch.NewBlockHoldsKeyLine | InstallAnyDesk.py:64 | the block appended for a missing section holds `key=value` |
| SectionPatch.PlacedAfter | InstallAnyDesk.py:64 | proof step: t sits right after x in x + t + y |
| SectionPatch.EnsureLineInSection | InstallAnyDesk.py:57-84 | the result always holds `key=value`; with no `[section]` header, it is the text, a `'\n'` if it lacked one, and `\n[section]\nkey=value\n` |
| PatchProperties.LocateFinds | InstallAnyDesk.py:57-71 | the section found is exactly the first header match and the body end the patterns determine |
| PatchProperties.FirstHeaderUnique | InstallAnyDesk.py:57-58 | there is one first header match |
| PatchProperties.BodyEndUnique | InstallAnyDesk.py:70-71 | there is one body end |
| PatchProperties.SpliceAroundBody | InstallAnyDesk.py:67-84 | the result is the text up to the header match's end, the rewritten body, and the text from the next header on |
| PatchProperties.OutsideBodyUnchanged | InstallAnyDesk.py:67-84 | the prefix up to the header match's end and the suffix from the next header on come back byte for byte |
| PatchProperties.FirstKeyMatchReplaced | InstallAnyDesk.py:75-77 | only the leftmost key match is replaced by `key=value`; everything before its start and after its end is kept |
| PatchProperties.MissingKeyAppended | InstallAnyDesk.py:78-82 | with no key match, the body gets a `'\n'` if it lacks one, then `key=value\n` |
| PatchProperties.AbsentKeyNotFound | InstallAnyDesk.py:75-76 | a key whose first character is not in the body is not found |
| PatchProperties.MatchedKeyOccurs | InstallAnyDesk.py:75 | a key match contains the key's text at or after its start, so the key's first character occurs in the body |
| PatchProperties.AutomaticLoginSkipsEnableLine | InstallAnyDesk.py:106-107 | `AutomaticLogin` never takes its key from an `AutomaticLoginEnable` line |
| PatchProperties.PlainKeyLineEnd | InstallAnyDesk.py:75 | on a `key=value` line with a one-line visible value, the key pattern's tail ends exactly at the line's end |
| PatchProperties.KeyLinePieces | InstallAnyDesk.py:77 | a `key=value` text is the key, `=`, and the value |
| PatchProperties.ValueToLineEnd | InstallAnyDesk.py:75 | after `=`, `\s*.*$` runs exactly to the end of a one-line value with a visible character |
| PatchProperties.MatchStartsAtUnindentedKey | InstallAnyDesk.py:75 | a match whose key starts a line after a non-blank line starts at the key itself; no blank lines are taken |
| PatchProperties.UpsertKeepsPatchedBody | InstallAnyDesk.py:75-77 | when the leftmost match's line already reads `key=value` after a non-blank line, and the value is one line with a visible character, the body is unchanged |
| PatchProperties.SpliceSame | InstallAnyDesk.py:77 | writing back the text already there changes nothing |
| PatchProperties.EnsureLineOnLocated | InstallAnyDesk.py:67-84 | proof step: once the section is located, the result is the text around the body with the body rewritten |
| PatchProperties.EnsureLineOnSpan | InstallAnyDesk.py:67-84 | proof step: the same, with the section's offsets given |
| PatchProperties.ReapplyLeavesPatchedTextUnchanged | InstallAnyDesk.py:94-98 | conditional idempotence: re-applying returns the text unchanged when the leftmost match already reads `key=value`, the value is one line with a visible character, and the line before is not blank |
| PatchProperties.KeyLineUnderHeaderMerges | InstallAnyDesk.py:68-77 | a key line directly under its header is rewritten together with the header's newline, so `key=value` is glued to the header line |
| PatchProperties.UpsertMergesLeadingKeyLine | InstallAnyDesk.py:75-77 | the body's leading `'\n'` and the key line after it become `key=value` |
| PatchProperties.UpsertAtHit | InstallAnyDesk.py:76-77 | proof step: with the leftmost match h, the body becomes the text before h, `key=value`, and the text after h |
| PatchProperties.LeadingNewlineKeyMatch | InstallAnyDesk.py:75-76 | the leftmost key match of a body that starts with `'\n'` and a key line starts at offset 0 |
| PatchProperties.NewlineThenText | InstallAnyDesk.py:68 | proof step: a text starting with `'\n'` + t has t at offset 1 |
| PatchProperties.NoBracketNoAnyHeader | InstallAnyDesk.py:70 | a text without `[` has no any-header line |
| PatchProperties.HeaderThenBody | InstallAnyDesk.py:57-71 | a leading `[section]` header whose rest starts with `'\n'` and then a non-space character, and holds no `[`, is located at 0, with the whole rest as its body |
| PatchProperties.KeyHitAnchor | InstallAnyDesk.py:75 | a key match takes its key from a character equal to the key's first one, after only whitespace from a line start |
| PatchProperties.NoBlankRunToPatchedLine | InstallAnyDesk.py:75 | whitespace alone cannot reach from a line start to a line that follows a non-blank line |
| PatchProperties.NoKeyMatchBefore | InstallAnyDesk.py:75-76 | before a patched line whose key's first character occurs nowhere earlier, the key pattern matches nowhere |
| PatchProperties.FindKeyAtPatchedLine | InstallAnyDesk.py:75-76 | for a key that does not start with whitespace and a value that is one line with a visible character, a patched `key=value` line with no occurrence of the key's first character before it is the leftmost key match, from its start to its end |
| PatchProperties.LeadingSectionGetsKeyAppended | InstallAnyDesk.py:78-84 | a leading section whose body ends in `'\n'` and holds no occurrence of the key's first character gets `key=value` as its last line |
| PatchProperties.EnsureLineInLeadingSection | InstallAnyDesk.py:67-84 | for a leading section, only its body is rewritten |
| PatchProperties.AppendWhenAbsent | InstallAnyDesk.py:78-82 | a body ending in `'\n'` with no key match gets `key=value\n` appended as is |
| PatchProperties.LeadingSectionKeyLineMerges | InstallAnyDesk.py:68-77 | a key line directly under a leading header is glued to the header line |
| PatchProperties.KeyLineBodyShape | InstallAnyDesk.py:73 | proof step: the layout of a body made of a `'\n'`, a key line, a `'\n'` and the rest |
| PatchProperties.HeaderMatchAtBracket | InstallAnyDesk.py:57 | a header match starts with `[` |
| PatchProperties.GluedHeaderCountsAsMissing | InstallAnyDesk.py:57-65 | a header line with a non-space character glued after `]`, in a text with no other `[`, no longer matches, so a new block is appended |
| PatchProperties.LeadingSectionKeepsPatchedLine | InstallAnyDesk.py:94-98 | a leading section whose body starts with `'\n'` then a non-space and holds no `[`, holding a patched `key=value` line (key and value without a backslash, a key not starting with whitespace, a value that is one line with a visible character) with no occurrence of the key's first character before that line, is left unchanged |
| PatchProperties.PatchedLineAfterOneLine | InstallAnyDesk.py:75-77 | a key line after one plain line is a patched line in that sense |
| PatchProperties.PatchedLineParts | InstallAnyDesk.py:75-77 | proof step: what a patched line is, piece by piece |
| PatchProperties.HeaderFound | InstallAnyDesk.py:57-58 | proof step: a first header match is a match |
| GdmSetup.FileSystem.ReadText | InstallAnyDesk.py:89 | reading returns the stored text |
| GdmSetup.FileSystem.WriteText | InstallAnyDesk.py:95 | writing replaces that path's text and logs one write |
| GdmSetup.FileSystem.Copy | InstallAnyDesk.py:47 | the copy puts the source's text at the target and logs one copy |
| GdmSetup.BackupPath | InstallAnyDesk.py:46 | the backup name extends the original path by `.bak_<timestamp>`, so it never names the original file |
| GdmSetup.BackupFile | InstallAnyDesk.py:42-49 | a missing file fails with FileNotFound before any copy; otherwise the backup holds the file's text, and one copy is logged |
| GdmSetup.WaylandDisabled | InstallAnyDesk.py:92 | the patched text always holds `WaylandEnable=false`; a text with no `[daemon]` header gets `\n[daemon]\nWaylandEnable=false\n` after a final `'\n'` |
| GdmSetup.AutologinEnabled | InstallAnyDesk.py:105-107 | the patched text always holds `AutomaticLogin=<user>`, the key patched last |
| GdmSetup.DisableWaylandInGdm | InstallAnyDesk.py:87-98 | a missing file fails with nothing changed; otherwise the backup holds the text as read, the file holds the patched text, and a write happens, once and after the copy, exactly when the text changed |
| GdmSetup.EnableGdmAutologin | InstallAnyDesk.py:101-113 | the same, with both keys patched in memory before at most one write |
| GdmScenarios.WaylandKeyAddedAfterLine | InstallAnyDesk.py:87-98 | with one plain line (unindented, no `W`, no `[`) under a `[daemon]` header that opens the file, `WaylandEnable=false` is added as the section's last line |
| GdmScenarios.WaylandKeyKeptOnRerun | InstallAnyDesk.py:94-98 | a second run on that result changes nothing |
| GdmScenarios.SpacedWaylandLineRewritten | InstallAnyDesk.py:87-98 | with one plain line under a `[daemon]` header that opens the file, a `WaylandEnable = true` line below it is replaced whole by `WaylandEnable=false`; the lines around it are kept |
| GdmScenarios.SpacedWaylandTexts | InstallAnyDesk.py:92 | proof step: the literal pieces of the spaced-line scenario |
| GdmScenarios.SpacedWaylandBody | InstallAnyDesk.py:73 | proof step: that file is the `[daemon]` header followed by its body |
| GdmScenarios.WaylandLineGluedToHeader | InstallAnyDesk.py:87-98 | `WaylandEnable=false` directly under `[daemon]` is still rewritten, glued to the header line |
| GdmScenarios.GluedWaylandLineGetsSecondBlock | InstallAnyDesk.py:57-65 | after the glue, the next run appends a second `[daemon]` block |
| GdmScenarios.WaylandRerunsDoNotSettle | InstallAnyDesk.py:94-98 | from a file that reads `WaylandEnable=false` directly under a `[daemon]` header that opens it, with no `[` after it, two successive runs each change the text |
| GdmScenarios.DaemonTexts | InstallAnyDesk.py:64 | proof step: the `[daemon]` header and the block the Wayland step appends, spelled out |
| LooseKeyPattern.EmptyValueLayout | InstallAnyDesk.py:73 | proof step: where the header's newline, the first line, the key, `=`, the newline, the next line and the rest sit in a body with a `key=` line |
| LooseKeyPattern.StartsAtSplit | InstallAnyDesk.py:75 | proof step: a text found at j splits into its two parts |
| LooseKeyPattern.NoNewlineAt | InstallAnyDesk.py:75 | proof step: a newline-free text leaves no newline where it is placed |
| LooseKeyPattern.LineEndBeforeRest | InstallAnyDesk.py:75 | proof step: `$` holds where the rest of the text is empty or starts with a newline |
| LooseKeyPattern.KeyOnSecondLine | InstallAnyDesk.py:75 | proof step: a key right after the first line starts a line with no whitespace before it |
| LooseKeyPattern.SecondLineMatchFound | InstallAnyDesk.py:75-76 | a key match at the line after a first line that lacks the key's first character is the leftmost match |
| LooseKeyPattern.EmptyValueKeyAt | InstallAnyDesk.py:75 | on `key=` with nothing after `=`, followed by a visible line, the pattern's tail crosses the newline and ends at the end of that next line |
| LooseKeyPattern.KeyMatchAtRunEnd | InstallAnyDesk.py:75 | at a line start whose whitespace run ends at the key, the match takes the key there |
| LooseKeyPattern.FirstMatchFound | InstallAnyDesk.py:76 | the search returns the match at m when nothing matches earlier |
| LooseKeyPattern.EmptyValueKeyMatch | InstallAnyDesk.py:75-76 | in a body `\n` + line + `\n` + `key=` + `\n` + next + rest, the leftmost key match runs from the `key=` line's start to the end of the next line |
| LooseKeyPattern.EmptyValueSwallowsNextLine | InstallAnyDesk.py:75-77 | in such a body, rewriting `key=` with an empty value replaces the next line as well: the first line, `key=value` and the rest remain |
| LooseKeyPattern.EmptyValueSwallowsDuplicate | InstallAnyDesk.py:75-77 | an empty-valued `key=` line followed by a duplicate `key=w` line: both become the one line `key=value`, so the duplicate is lost |
| LooseKeyPattern.BlankLinesLayout | InstallAnyDesk.py:73 | proof step: where the pieces of a body with one line, empty lines and a key line sit |
| LooseKeyPattern.BlankRunEnd | InstallAnyDesk.py:75 | a greedy `\s*` runs over a stretch of empty lines to the visible character after them |
| LooseKeyPattern.KeyCharNotInFirstLine | InstallAnyDesk.py:75 | the key's first character occurs nowhere in a first line that lacks it |
| LooseKeyPattern.LineStartsInFirstLine | InstallAnyDesk.py:75 | a line without a newline holds no line start inside it |
| LooseKeyPattern.NoKeyMatchInFirstLine | InstallAnyDesk.py:75-76 | the key pattern matches at no offset of that first line |
| LooseKeyPattern.KeyMatchOverBlanks | InstallAnyDesk.py:75 | a key match from the line start just after the first line takes the empty lines and the key line |
| LooseKeyPattern.FindKeyAfterBlanks | InstallAnyDesk.py:75-76 | that match is the leftmost one |
| LooseKeyPattern.BlankLinesBeforeKeyEaten | InstallAnyDesk.py:75-77 | rewriting a key line removes the empty lines just above it |
| LooseKeyPattern.EmptyLastValueKeyAt | InstallAnyDesk.py:75 | on `key=` followed only by a newline, the pattern's tail runs to the end of the text |
| LooseKeyPattern.EmptyLastValueLayout | InstallAnyDesk.py:73 | proof step: where the pieces of a body ending in a `key=` line sit |
| LooseKeyPattern.EmptyLastValueKeyMatch | InstallAnyDesk.py:75-76 | the leftmost key match of such a body runs from the `key=` line's start to the end of the body |
| LooseKeyPattern.EmptyLastValueTakesFinalNewline | InstallAnyDesk.py:75-77 | rewriting an empty-valued key on the body's last line drops the body's final newline, so what follows the body is joined to `key=value` |
| LooseKeyPattern.BlanksRunEnd | InstallAnyDesk.py:75 | a greedy `\s*` runs over blanks to the visible character after them |
| LooseKeyPattern.SpacedKeyLinePieces | InstallAnyDesk.py:75 | proof step: where the key, the blanks, `=` and the value of a spaced key line sit |
| LooseKeyPattern.SpacedKeyLineOneLine | InstallAnyDesk.py:75 | proof step: a spaced key line with a one-line key and value holds no newline |
| LooseKeyPattern.FirstCharAt | InstallAnyDesk.py:75 | proof step: the first character of a text placed at i |
| LooseKeyPattern.SpacedKeyFound | InstallAnyDesk.py:75 | blanks between the key and `=` still let `\s*=` match after the key |
| LooseKeyPattern.SpacedKeyAt | InstallAnyDesk.py:75 | a one-line `key = value` line with a visible value is matched from its key to its own line end |
| LooseKeyPattern.StartsAtKeyOfLine | InstallAnyDesk.py:75 | proof step: a text placed at m starts with whatever that text starts with |
| LooseKeyPattern.SecondLineLayout | InstallAnyDesk.py:73 | proof step: where the pieces of a body made of a newline, a first line, a newline, a key line and the rest sit |
| LooseKeyPattern.SpacedKeyLineReplaced | InstallAnyDesk.py:75-77 | a `key = value` line (blanks around `=`, a visible one-line value) after a first line is replaced whole by `key=value`; the first line and everything after it are kept |

## Left out

- `run`, `require_root`, `systemctl_enable_start`, `apt_install` and `main` (InstallAnyDesk.py:32-39, 116-179): process, privilege and command-line plumbing with no text logic.
- InstallHaLinuxDocker.py is not part of this model: it is subprocess calls, directory creation and fixed-text templating.
- The clock: `datetime.now().strftime(...)` becomes the `ts` parameter of the backup steps.
- `shutil.copy2` metadata (modes, times): the copy is a map update.
- The `print` messages of the three steps.
- Byte decoding with `errors="replace"` and UTF-8 encoding: files are already-decoded text.
- The universal-newline translation of `Path.read_text` (InstallAnyDesk.py:89, 103), which turns `"\r\n"` and `"\r"` into `"\n"` while `shutil.copy2` (line 47) copies raw bytes: the model reads exactly the stored text, so "the backup holds the text as read" is exact only for UTF-8 files with `'\n'`-only line endings.
- Read and write failures other than the missing file (permissions, a file that vanishes after the backup).
- `Path.exists()` is also true for a directory. The model's file system holds files only.
- A general regular-expression engine: only the three fixed patterns are modelled, as explicit scans.
- SectionPatch.EnsureLineInSection: requires key and value without a backslash, because the replacement string is a `re.sub` template in which `\` escapes and group references would be interpreted.
- GdmSetup.EnableGdmAutologin: requires a user name without a backslash, for the same reason.
- GdmSetup.FileSystem.ReadText: requires the file to exist. In both GDM steps the backup has already failed on a missing file.
- GdmSetup.BackupPath: models `path.with_suffix(path.suffix + ".bak_<ts>")` as appending `.bak_<ts>` to the path. This is what it does for every name with a stem; names such as `.` or a trailing separator are not modelled.
- GdmSetup.AutologinEnabled: states only that `AutomaticLogin=<user>` is present, not `AutomaticLoginEnable=true`, because the second patch can take the first key's line away: an empty-valued `AutomaticLogin=` line just above it is rewritten together with it (the effect LooseKeyPattern.EmptyValueSwallowsNextLine proves).
- PatchProperties.ReapplyLeavesPatchedTextUnchanged: requires the value to hold a visible character, not just to be non-empty. A whitespace-only value lets the key pattern's `\s*` run past the end of the line, so the match need not end where the line does.
