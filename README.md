# ext-copyright, modelled in Dafny

ext-copyright is a VS Code extension. It keeps a copyright header at the top of source files. On save, or on command, it checks whether the document already starts with the configured header:

- If the header is missing, it offers to insert it.
- If the header's year (or year range) is behind the current year, it offers to bring the year up to date.

This project models the decision logic behind that, on values:

- `src/copyrightUtils.ts` in full:
  - `findYearMatch`: find the year token a `${year}` pattern captures in a line;
  - `calculateNewYearRange`: compute the updated range, or `null`.
- `getCopyrightEdit` from `src/extension.ts`:
  - the header regular expression: the header is split at `\r?\n`, each line escaped, the lines joined by `\r?\n`, and the year group put in place of `${year}` or of the first template year;
  - the anchored match;
  - the update branch, which locates the stale year with `indexOf`;
  - the insertion branch, with its `startsWith` guard.
- `resolveCopyrightHeader` from `src/extension.ts`: the four-level settings lookup.
- The rest of the save and command handlers that decides which header and which files:
  - the file extension;
  - the header join;
  - the `fileExtensions` filter.

Regular expressions are not interpreted in general. The regular expressions these functions build have a fixed shape, so the model represents them as a sequence of segments. A segment is one of:

- an escaped literal;
- the line break `\r?\n`;
- the year group `(\(?\d{4}(?:-\d{4})?\)?)`.

The matcher `YearPattern.MatchSegs` follows JavaScript's backtracking order:

- the optional `\(` is tried taken before skipped;
- then the optional range;
- then the optional `\)`.

The first way through that lets the rest of the pattern match wins (`YearPattern.TryShapesFirstFit`). A reported year span is exactly the first capture of that match (`CopyrightUtils.MatchPattern`), which is what `match[1]` holds.

Modules, one per file:

- `Strings` and `Wrappers` (`strings.dfy`): the JavaScript string operations the source uses, and `Option`.
- `YearPattern` (`pattern.dfy`): segments, year tokens and the matcher.
- `CopyrightUtils` (`copyright_utils.dfy`): `findYearMatch` and `calculateNewYearRange`.
- `CopyrightUtilsExamples` (`copyright_utils_examples.dfy`): the cases of the unit tests, proved.
- `CopyrightEdit` (`copyright_edit.dfy`): `getCopyrightEdit`, both as a method that follows the code step by step and as the function `PlannedEdit` that specifies it.
- `CopyrightEditFindings` (`copyright_edit_findings.dfy`): two defects of `getCopyrightEdit`, and a corrected planner.
- `HeaderRecognition` (`header_recognition.dfy`): a header written out with a year, as the insertion branch writes it, is recognised by the header regular expression.
- `HeaderConfig` (`header_config.dfy`): `resolveCopyrightHeader`, the file extension, the header join and the save filter.

## Model

| member | source | states |
|---|---|---|
| CopyrightUtils.Compile | src/copyrightUtils.ts:19-22 | the pattern's regular expression has a year group exactly when the pattern contains `${year}`; no escaped literal contains `${year}`; the first two segments are the text before the first `${year}` and the year group |
| CopyrightUtils.CompileRoundTrip | src/copyrightUtils.ts:19-22 | escaping loses nothing: writing every year group back as `${year}` gives the pattern again |
| CopyrightUtils.MatchPattern | src/copyrightUtils.ts:14-37 | a pattern without `${year}` yields nothing; a result is a year token written in the line at the offsets reported, where the start is the leftmost match position plus the placeholder's index in the pattern, and the reported span is exactly the first capture (`match[1]`) of the match at that position; no result means the regular expression matches nowhere in the line |
| CopyrightUtils.FindYearMatch | src/copyrightUtils.ts:10-40 | every result is a year token written in the line at exactly the reported offsets |
| CopyrightUtils.FindYearMatchIsFirstHit | src/copyrightUtils.ts:13-39 | the result is that of the first pattern that matches, and `undefined` exactly when no pattern matches |
| CopyrightUtils.SkipsPatternWithoutPlaceholder | src/copyrightUtils.ts:14-17 | a pattern without `${year}` at the head of the list does not change the result |
| CopyrightUtils.NoPlaceholderNoMatch | src/copyrightUtils.ts:14-17 | when no pattern contains `${year}` the result is `undefined` |
| CopyrightUtils.FirstMatchingPatternWins | src/copyrightUtils.ts:26-37 | once the first pattern matches, the later patterns do not affect the result |
| CopyrightUtils.YearsOf | src/copyrightUtils.ts:47-48 | removing the parentheses and splitting at `-` yields at least one part, and no part holds a dash or a parenthesis |
| CopyrightUtils.ParseYearToken | src/copyrightUtils.ts:47-49 | on a well-formed year token the parse yields its one or two four-digit years, and the token contains `(` exactly when it opens with one |
| CopyrightUtils.CalculateOnYearToken | src/copyrightUtils.ts:46-62 | on a well-formed token the result is `null` unless the end year is before the current year; otherwise it is the start year, a dash and the current year, in parentheses when the token had `(` or was a single year |
| CopyrightUtils.CalculateNewYearRange | src/copyrightUtils.ts:46-62 | `null` exactly when the end year is not before the current year as strings; an update opens with `(` exactly when the original had `(` or was a single year, and, for a current year without dash or parentheses, reads back as the original start year and the current year |
| CopyrightUtils.NoUpdateIffNotBehind | src/copyrightUtils.ts:49-53 | for a year token and a four-digit current year, `null` holds exactly when the end year is numerically at or after the current year (the string comparison agrees with the numbers) |
| CopyrightUtils.UpdatedRangeShape | src/copyrightUtils.ts:55-61 | an update is a well-formed range that keeps the start year and ends at the current year, in parentheses exactly when the original had `(` or was a single year |
| CopyrightUtils.FormatRangeFits | src/copyrightUtils.ts:59 | a range formatted from two four-digit years is a year token whose parsed years are those two |
| CopyrightUtils.UpdateIsIdempotent | src/copyrightUtils.ts:46-62 | calculating again on an updated range gives `null` |
| CopyrightUtils.FormattedRangeYears | src/copyrightUtils.ts:47-48 | the parse reads a formatted range back as its start year and the current year |
| CopyrightUtilsExamples.StandardHeaderYearFound | src/test/suite/copyrightUtils.test.ts:5-15 | `Copyright (c) 2020 My Company` yields `2020` at offsets 14 to 18 |
| CopyrightUtilsExamples.ParenthesizedRangeFound | src/test/suite/copyrightUtils.test.ts:17-24 | `// Copyright (2019-2020) Author` yields `(2019-2020)`, parentheses included |
| CopyrightUtilsExamples.UnrelatedLineNotMatched | src/test/suite/copyrightUtils.test.ts:26-32 | `var x = 1;` yields `undefined` |
| CopyrightUtilsExamples.PlainYearFound | src/copyrightUtils.ts:10-40 | a line that spells the pattern with a four-digit year in place of `${year}` yields that year at the placeholder's offset, whatever text follows it: the greedy group cannot take more, since the pattern's closing text must still fit before the end of the line |
| CopyrightUtilsExamples.ParenthesizedRangeFoundIn | src/copyrightUtils.ts:10-40 | a line that spells the pattern with a parenthesized range in place of `${year}` yields the whole range |
| CopyrightUtilsExamples.ShortLineNotMatched | src/copyrightUtils.ts:24-26 | a line shorter than the pattern's literal text plus four digits yields `undefined` |
| CopyrightUtilsExamples.SingleYearUpdatedToParenthesizedRange | src/test/suite/copyrightUtils.test.ts:34-39 | `2020` in 2025 becomes `(2020-2025)` |
| CopyrightUtilsExamples.RangeUpdatedWithoutParens | src/test/suite/copyrightUtils.test.ts:41-45 | `2020-2024` in 2025 becomes `2020-2025` |
| CopyrightUtilsExamples.ParenthesizedRangeKeepsParens | src/test/suite/copyrightUtils.test.ts:47-51 | `(2020-2024)` in 2025 becomes `(2020-2025)` |
| CopyrightUtilsExamples.CurrentRangeNotUpdated | src/test/suite/copyrightUtils.test.ts:53-57 | `2020-2025` in 2025 gives `null` |
| CopyrightUtilsExamples.FutureYearNotUpdated | src/test/suite/copyrightUtils.test.ts:59-64 | `2025` in 2020 gives `null` |
| YearPattern.MatchSegs | src/copyrightUtils.ts:11 | a match consumes at least the pattern's literal minimum, stays within the text, and reports one capture per year group, each a year token written in the text |
| YearPattern.TryShapes | src/copyrightUtils.ts:11 | a year group that succeeds captures a year token starting where it was tried, ahead of the rest's captures |
| YearPattern.TryShapesFirstFit | src/copyrightUtils.ts:11 | the year group fails exactly when no shape fits and lets the rest follow; otherwise it takes the first such shape in take-before-skip order, and the match is that shape's span followed by the rest's match |
| YearPattern.TryShapesComplete | src/copyrightUtils.ts:11 | backtracking misses nothing: if any shape of the year group fits and the rest can follow, the group succeeds |
| YearPattern.SearchFrom | src/copyrightUtils.ts:24 | an unanchored `match` finds the leftmost position at which the regular expression matches, or reports that it matches nowhere |
| YearPattern.TooShortNoMatch | src/copyrightUtils.ts:24 | a text shorter than the pattern's literal minimum has no match |
| YearPattern.FirstCapAfterLiteral | src/copyrightUtils.ts:30 | when a pattern starts with literal text and a year group, the capture starts right after that text, so adding the placeholder's index to the match index gives the capture's start |
| CopyrightEdit.Escape | src/extension.ts:184-186 | the escaped header has no year group; exactly what it matches is stated by `EscapeMatchesIff` |
| CopyrightEdit.EscapeMatchesIff | src/extension.ts:184-186 | the escaped header matches at a position exactly when text that writes the header starts there and the rest of the pattern matches after it; a writing keeps every other character and puts each line break as `\n` or `\r\n`, each break on its own, so mixed line breaks are covered; the match is then the rest's match after that text |
| CopyrightEdit.EscapeMatchesWrittenAs | src/extension.ts:184-186 | wherever any such writing of the header starts, the escaped header takes exactly that text and the rest of the pattern decides the match |
| CopyrightEdit.EscapeMatchReadBack | src/extension.ts:184-186 | whenever the escaped header matches, what it took is a writing of the header, and the rest of the pattern matched right after it |
| CopyrightEdit.WrittenIsWrittenAs | src/extension.ts:184-186 | the header written verbatim, and the header with every line break written `\r\n`, are both writings of the header |
| CopyrightEdit.EscapeMatchesHeader | src/extension.ts:184-186 | the escaped header matches wherever the header is written verbatim, and consumes exactly it |
| CopyrightEdit.EscapeMatchesCrlf | src/extension.ts:184-186 | the escaped header also matches the header written with `\r\n` line breaks, and consumes exactly that |
| CopyrightEdit.ReplaceHole | src/extension.ts:190-196 | putting the year group in place of the hole never loses a year group |
| CopyrightEdit.ReplaceHoleRestores | src/extension.ts:190-196 | only spelled holes become year groups and every other segment is kept: writing each group back as the hole gives the escaped header again; without the `/g` flag at most one group appears |
| CopyrightEdit.ReplaceHoleSkips | src/extension.ts:192 | segments before the first place that spells the hole are copied unchanged |
| CopyrightEdit.HoleYieldsYearGroup | src/extension.ts:190-196 | a hole that occurs in the header and has no line break becomes a year group in the regular expression |
| CopyrightEdit.TemplateYearFrom | src/extension.ts:182 | the result is the leftmost position, at or after the start, of a stand-alone `19xx` or `20xx`, or the report that none exists |
| CopyrightEdit.FindTemplateYear | src/extension.ts:182 | the template year is a four-digit `19xx` or `20xx` written stand-alone in the header at the leftmost such position, and there is none exactly when no position holds one |
| CopyrightEdit.HeaderRegex | src/extension.ts:179-198 | the header's regular expression has a year group exactly when the header has `${year}` or a template year |
| CopyrightEdit.BuildHeaderRegex | src/extension.ts:179-198 | computed step by step as the code does, the regular expression, the placeholder flag and the template year equal their specification, and a year group exists exactly when the code's update condition can hold |
| CopyrightEdit.UpdateYearRange | src/extension.ts:201-220 | the update branch, computed as the code does (parentheses removed, split at `-`, `indexOf` in the matched text), returns exactly the planned update of the first capture |
| CopyrightEdit.GetCopyrightEdit | src/extension.ts:174-236 | the method that follows the code line by line returns exactly the planned edit |
| CopyrightEdit.PlannedEdit | src/extension.ts:174-236 | every planned edit lies within the document |
| CopyrightEdit.PlannedUpdate | src/extension.ts:201-220 | every planned update lies within the document |
| CopyrightEdit.PlannedInsert | src/extension.ts:221-233 | no insertion exactly when the document starts with the header instance; otherwise the edit is an insertion at offset 0 that puts the instance and a newline before the whole document, with the insert message |
| CopyrightEdit.HeaderInstance | src/extension.ts:222-227 | with `${year}` the inserted text is the pattern written out with the current year at every placeholder; otherwise the first copy of the template year is replaced by the current year; without either the header is inserted as it is |
| CopyrightEdit.TokenOffset | src/extension.ts:213 | `indexOf` finds the first copy of the token in the matched text, no later than the captured one |
| CopyrightEdit.Apply | src/extension.ts:217 | applying an edit keeps the text before it, puts the new text at its start, and keeps the text after the replaced range right after the new text |
| CopyrightEdit.FoundSpan | src/extension.ts:199-202 | `match[1]` is a year token within the document |
| CopyrightEdit.PlannedUpdateOfToken | src/extension.ts:202-211 | the update branch gives no edit exactly when the end year equals the current year; otherwise the new text is the range from the start year to the current year |
| CopyrightEdit.UpdateReplacesToken | src/extension.ts:201-219 | a stale year is replaced: the edit covers one written copy of the captured token, no later than the capture, with a well-formed range from its start year to the current year, and the message names both |
| CopyrightEdit.UpToDateHeaderLeftAlone | src/extension.ts:207 | a header whose year ends at the current year needs no edit |
| CopyrightEdit.FutureYearRewritten | src/extension.ts:207 | a header year after the current one is rewritten by the planner, although `calculateNewYearRange` leaves it alone |
| CopyrightEdit.AgreesWithCalculateWhenBehind | src/extension.ts:203-210 | when the header's year is behind, the planner's new range is `calculateNewYearRange`'s |
| CopyrightEdit.InsertWhenHeaderMissing | src/extension.ts:221-233 | without a recognised header, the edit inserts the header instance and a newline at offset 0, and there is no edit exactly when the document already starts with that instance |
| CopyrightEdit.InsertIsNotRepeated | src/extension.ts:221-233 | after an insertion is applied, the planner never proposes another insertion |
| CopyrightEdit.UpdateNeverInserts | src/extension.ts:218-231 | an update is never announced as an insertion |
| CopyrightEdit.InstanceRendersPattern | src/extension.ts:223-224 | with `${year}`, the inserted header is the header pattern written out with the current year at every placeholder |
| CopyrightEdit.RenderReplacesAll | src/extension.ts:224 | replacing every `${year}` equals writing out the compiled pattern with that year |
| HeaderRecognition.FillAllIsReplaceAll | src/extension.ts:224 | writing the year at every copy of the hole is `replace` with the `/g` flag |
| HeaderRecognition.FillFirstIsReplaceFirst | src/extension.ts:226 | writing the year at the leftmost copy only is a plain `replace` |
| HeaderRecognition.RegexAndInstanceOfHole | src/extension.ts:190-227 | the regular expression and the inserted text use the same hole, `${year}` or the template year, both replaced everywhere or both only at the first copy |
| HeaderRecognition.FilledHeaderMatches | src/extension.ts:185-198 | the header regular expression, followed by any year-free pattern, matches wherever the header is written with a four-digit year in place of its hole, with its line breaks as written or all as `\r\n`, and the first capture starts at a written copy of that year |
| HeaderRecognition.HeaderInstanceRecognised | src/extension.ts:185-227 | a document that begins with the inserted header, its year four digits, its line breaks as written or all as `\r\n`, takes the update branch, and the captured token's start year is that year |
| HeaderRecognition.InsertedHeaderRecognised | src/extension.ts:199-233 | after the planner inserts a header with a year group, the next run recognises it and captures the inserted year |
| CopyrightEditFindings.CrlfHeaderInsertedAgain | src/extension.ts:229 | a `\r\n` document that starts with the year-less header `Acme`/`MIT` is matched whole by the header regular expression, yet the plan inserts the header again |
| CopyrightEditFindings.YearlessHeaderPlan | src/extension.ts:201-233 | a header without a year group is inserted unless the document starts with it verbatim, whether or not the regular expression recognises it |
| CopyrightEditFindings.IndexOfHitsLiteralYear | src/extension.ts:213 | for header `2020 ${year}` and document `2020 2020`, the year captured is at 5..9 but the edit replaces 0..4 |
| CopyrightEditFindings.UpdateLandsOnEarlierCopy | src/extension.ts:213-215 | in general, the edit starts at or before any copy of the token written ahead of the capture |
| CopyrightEditFindings.PlannedEditCorrected | src/extension.ts:174-236 | the corrected plan's edits lie within the document |
| CopyrightEditFindings.UpdateCapture | src/extension.ts:201-219 | corrected update: no edit exactly when the captured token's end year is current; otherwise the edit covers exactly the captured span, the message names the token and the new range, and the new range reads back as the token's start year and the current year |
| CopyrightEditFindings.CorrectedNeverInsertsOverMatch | src/extension.ts:199-233 | corrected: when the header regular expression matches, the only possible edit replaces exactly the captured span and is not an insertion |
| CopyrightEditFindings.CorrectedReplacesCapture | src/extension.ts:201-219 | corrected: a stale year is replaced exactly at the captured span, and the text before it is kept, by a well-formed range from its start year to the current year |
| CopyrightEditFindings.CorrectedLeavesCurrentYear | src/extension.ts:207 | corrected: a header whose year is current needs no edit |
| CopyrightEditFindings.CorrectedAgreesWithoutMatch | src/extension.ts:221-233 | the correction changes nothing where the header is not recognised |
| CopyrightEditFindings.CorrectedAgreesOnFirstCopy | src/extension.ts:213 | the correction changes nothing where the captured token is its own first copy in the matched text |
| CopyrightEditFindings.CorrectedKeepsCrlfHeader | src/extension.ts:229 | corrected: the `\r\n` document of the first finding is left alone |
| CopyrightEditFindings.CorrectedUpdatesCapturedYear | src/extension.ts:213 | corrected: the document of the second finding gets its captured year at 5..9 rewritten |
| HeaderConfig.FileExtension | src/extension.ts:84-85 | the extension contains no dot and is lower case, and a name without a dot has the empty extension |
| HeaderConfig.FileExtensionAfterLastDot | src/extension.ts:84-85 | the extension is what follows the last dot, lower-cased, whatever precedes it |
| HeaderConfig.KeyExtensions | src/extension.ts:27 | a key lists one extension per comma-separated item, each that item trimmed and lower-cased |
| HeaderConfig.KeyMatches | src/extension.ts:27 | a key matches exactly when one of its comma-separated items, trimmed and lower-cased, is the extension |
| HeaderConfig.KeyOfItems | src/extension.ts:27 | a key joined from comma-free items lists exactly those items, trimmed and lower-cased, in order |
| HeaderConfig.KeyOfItemsMatches | src/extension.ts:27 | a key joined from comma-free items matches any extension that one of its items, trimmed and lower-cased, spells |
| HeaderConfig.KeyMatchesOnlyItems | src/extension.ts:27 | such a key matches no extension other than one of its items, trimmed and lower-cased |
| HeaderConfig.FirstMatch | src/extension.ts:26-30 | the loop over a record's entries finds nothing exactly when no key matches, and otherwise returns the value of the first entry whose key matches |
| HeaderConfig.FirstMatchIsFirst | src/extension.ts:26-30 | the first matching entry decides |
| HeaderConfig.FirstMatchIgnoresLater | src/extension.ts:26-30 | entries after a match never change the result |
| HeaderConfig.FirstFound | src/extension.ts:24-32 | the loop over the user levels finds nothing exactly when no defined level has a matching entry |
| HeaderConfig.FirstFoundIsFirst | src/extension.ts:24-32 | the first level with a matching entry decides |
| HeaderConfig.LookupExtension | src/extension.ts:26-30 | a record has no header for the extension exactly when none of its keys lists it; otherwise the first entry whose key lists it supplies the header |
| HeaderConfig.LookupFindsFirst | src/extension.ts:47-51 | a record's first entry whose key lists the extension supplies the header |
| HeaderConfig.LookupMisses | src/extension.ts:47-51 | without such a key the record has no header for the extension |
| HeaderConfig.UserLevels | src/extension.ts:18-22 | three user levels are consulted |
| HeaderConfig.FirstDefined | src/extension.ts:36 | the `??` chain is undefined exactly when all three user levels are |
| HeaderConfig.ResolveCopyrightHeader | src/extension.ts:13-56 | the resolution is undefined only when the default `headerText` is |
| HeaderConfig.UserEntryWins | src/extension.ts:17-32 | a user record that lists the extension decides, at the first level, in workspace-folder, workspace, global order, that has one |
| HeaderConfig.UserTextNext | src/extension.ts:34-42 | otherwise the first defined user `headerText` is used when it is not empty |
| HeaderConfig.EmptyUserTextSkipsLowerLevels | src/extension.ts:36-42 | an empty folder-level `headerText` hides the workspace and global values, and the defaults decide |
| HeaderConfig.DefaultHeader | src/extension.ts:44-55 | a default record that lists the extension supplies its first listing entry; without such a record or entry the default `headerText` is the header, so the defaults give none only when it is undefined |
| HeaderConfig.DefaultsLast | src/extension.ts:44-55 | without a usable user setting the default record, then the default `headerText`, decide |
| HeaderConfig.DefaultEntryNext | src/extension.ts:44-52 | level 3: with no user record entry and no non-empty user `headerText`, a default record listing the extension supplies its first listing entry, ahead of the default `headerText` |
| HeaderConfig.DefaultTextLast | src/extension.ts:54-55 | level 4: with nothing above it, the header is the default `headerText`, or none when that is undefined |
| HeaderConfig.JoinHeader | src/extension.ts:88 | an undefined header joins to the empty text |
| HeaderConfig.JoinHeaderLines | src/extension.ts:88 | lines joined with `\n` split back into the same lines |
| HeaderConfig.OneLineHeader | src/extension.ts:88 | a one-line array and that line as a string give the same header |
| HeaderConfig.EmptyHeaderNoText | src/extension.ts:88-90 | an empty string or empty array joins to no text, so the handlers do nothing |
| HeaderConfig.AdmittedInAnyCase | src/extension.ts:121-126 | a `fileExtensions` entry naming the file's extension in any ASCII case admits the file |
| HeaderConfig.ExtensionAdmitted | src/extension.ts:121-126 | an empty filter admits every file; an entry equal to the lower-case extension admits it; with a non-empty filter a file is admitted only through an entry that lower-cases to its extension |
| HeaderConfig.DotlessFileFiltered | src/extension.ts:121-126 | with a non-empty filter, a file name without a dot is admitted exactly when the filter lists the empty string |
| HeaderConfig.HeaderFor | src/extension.ts:84-88 | a file with no resolved header gets the empty header text |

## Left out

- The VS Code glue is not modelled: activation, commands, decorations, dialogs, the `onWillSaveTextDocument` flow after the filter, and the `ignoreNextSave` set. Only what decides the edit is modelled.
- The clock is not modelled: `new Date().getFullYear()` is the `currentYear` parameter.
- The document is its text, and an edit is a pair of offsets with its new text. `positionAt` and the conversion to line and column positions are left out.
- `config.inspect` is taken as its four levels. An inspect that returns `undefined` is modelled as all four levels undefined.
- `Object.entries` order is taken as the order of the modelled entry sequence.
- Regular expressions in general are not modelled: only the shapes these functions build are matched.
- `toLowerCase` is modelled for ASCII letters only; other characters are left as they are.
- `trim` removes the JavaScript whitespace characters of the Basic Multilingual Plane listed in `Strings.IsJsWhitespace`; surrogate pairs are not modelled.
- A setting whose value is not a string or an array of strings (the record's values are typed `string | string[]`) is not modelled.
- `HeaderConfig.ProcessOnSave` states the save handler's condition (`enabled`, a non-empty header, an admitted extension) and has no separate contract.
- The insertion guard is the code's exact `startsWith` on the raw document text.
- Text is a sequence of Unicode scalar values (Dafny's `char`), where JavaScript strings are sequences of UTF-16 code units. Offsets (`startIndex`, `TextEdit.start`) and the `LexLess` order agree with JavaScript only for text within the Basic Multilingual Plane.
- FilledHeaderMatches: proved for a filled header whose line breaks are all written as in the header or all as `\r\n`; a document that mixes the two kinds of break in a header with a year group is not covered. For the escaped header without a year group, `EscapeMatchesIff` covers any mix.
- HeaderInstanceRecognised: covers the same two ways of writing the line breaks as `FilledHeaderMatches`, for the same reason.

## Findings

| source | as written | input that shows it | evidently intended | confidence | as-written member | corrected member |
|---|---|---|---|---|---|---|
| src/extension.ts:229 | a header with no year group is inserted whenever the document does not start with it byte for byte, even though the header regular expression (built with `\r?\n`) has just recognised it | header `Acme\nMIT`, document `Acme\r\nMIT` | a header the regular expression recognises is never inserted again | not executed | CopyrightEditFindings.CrlfHeaderInsertedAgain | CopyrightEditFindings.CorrectedKeepsCrlfHeader |
| src/extension.ts:213 | the new range is placed at `match[0].indexOf(existingYearRange)`, the first copy of the token in the matched text, which can be a literal year of the header rather than the captured one | header `2020 ${year}`, document `2020 2020`, year 2025: the edit replaces 0..4, not the captured 5..9 | the captured year itself (`match[1]`'s span) is replaced | not executed | CopyrightEditFindings.IndexOfHitsLiteralYear | CopyrightEditFindings.CorrectedReplacesCapture |
