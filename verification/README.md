# PySmartClip text repair, modelled in Dafny

PySmartClip polls the clipboard once a second. Whenever it holds a string different from the last one
seen, the tool runs it through `process_text` and shows the result. `process_text` is a fixed chain of string-to-string repairs for
Chinese prose with pasted mathematics, in this order:

1. Full stops `。` become `.`.
2. The two-character escape `\n` is deleted, except where it begins one of the LaTeX commands
   `\nabla`, `\neq`, `\nmid` or `\nparallel`.
3. Each `\u20` and the two characters after it are cut out.
4. Doubled backslashes are collapsed.
5. Runs of non-Chinese text whose tail repeats their head collapse into one `$...$` span. This happens
   when a formula was pasted once as rendered text and once as source.
6. `**` and single spaces around Chinese words are removed.
7. In prose, ASCII `,` `.` `:` become full-width `，` `；` `：`.
8. In prose, `**`, spaces and ideographic spaces are deleted.

Prose and mathematics are told apart by counting `$` characters.

Each stage is a pure function on `seq<char>` with the same shape as the source. The stages are grouped
into modules as listed below. The control-character stage returns an `Option`, with `None` standing for
a loop that never finishes:

- `TextUtil` models Python's `str.replace` (leftmost, non-overlapping), `str.replace(p, q, 1)`, `find`,
  and the character classes. Python's `str.isspace`, the regex class `\s` and `str.strip()` all
  use the same whitespace set, so it is defined once as `IsSpace`.
- `Escapes` models stages 1, 3 and 4.
  - The control-character loop of stage 3 never finishes when a `\u20` remains but no `\u20` has two
    non-newline characters after it. Regex `.` does not match a newline. That outcome is modelled
    as `None`.
- `Newline` models stage 2. The text is viewed as the tiling that `re.finditer(r'\\n[a-zA-Z]*')`
  makes of it: plain characters and matches. The source's loop is proved to treat each tile on its
  own.
- `Duplicate` models stage 5. It covers:
  - the maximal non-Chinese runs;
  - their three trims, which are proved to amount to cutting the boundary class off both ends;
  - the two-phase mirror search: exact prefix first, then same characters, each over the candidates
    in descending order;
  - Python's crossing-slice rule for `part[k:-k]`;
  - the replacement of only the first occurrence.

  The outer `while` always exits after one pass, so the starting index is always 0.
- `Emphasis` models stage 6 as six left-to-right rewrite passes. The closing marker never starts with
  a Chinese character, so the greedy run never has to give characters back. `MatchAtIsGreedyMatch`
  proves that the hand-written scan finds exactly the regex's match.
- `MathModes` models stages 7 and 8. Both are scanners with a mode flag and a buffer. Each is paired
  with a reference definition that splits the text at its first `$`, and the two are proved equal.
- `Pipeline` composes the stages as `process_text` does, starting from the text the raw-string
  conversion hands over.

The comment on the final flush of stage 7 (PySmartClip_Chatpgt_Mubu.py:78) says it handles the
remainder when that remainder is not a math block. Lines 79-80 map the remainder in either mode, so an
unclosed trailing `$...` segment gets the punctuation map too. The model follows the code: see
`MathModes.ReplaceEngUnclosedSpan`.

## Model

| member | source | states |
|---|---|---|
| TextUtil.IndexOf | PySmartClip_Chatpgt_Mubu.py:93 | the result is the leftmost occurrence, or there is none anywhere |
| TextUtil.ReplaceAll | PySmartClip_Chatpgt_Mubu.py:56 | `str.replace` with a replacement no longer than the pattern never lengthens the text |
| TextUtil.ReplaceFirst | PySmartClip_Chatpgt_Mubu.py:127 | `replace(part, new, 1)` leaves a text without the pattern unchanged, and otherwise splices the replacement in at the leftmost occurrence only |
| TextUtil.ReplaceAllAbsent | PySmartClip_Chatpgt_Mubu.py:20 | `str.replace` leaves a text without the pattern unchanged |
| TextUtil.ReplaceCharPointwise | PySmartClip_Chatpgt_Mubu.py:20 | replacing one character by one character keeps the length and changes exactly the matching positions |
| TextUtil.DeleteCharIsFilter | PySmartClip_Chatpgt_Mubu.py:178 | deleting one character everywhere keeps exactly the other characters, in order |
| TextUtil.ReplaceAllKeepsDollars | PySmartClip_Chatpgt_Mubu.py:177-178 | replacing with no `$` in pattern or replacement keeps the number of `$` |
| Escapes.RemoveChnSymbols | PySmartClip_Chatpgt_Mubu.py:19-21 | every `。` becomes `.`, every other character stays where it is, the length is kept and no `。` remains |
| Escapes.BackslashRunCollapses | PySmartClip_Chatpgt_Mubu.py:54-56 | a maximal run of k backslashes becomes ceil(k/2) backslashes, and the rest of the text is treated independently |
| Escapes.PairCollapses | PySmartClip_Chatpgt_Mubu.py:56 | a leading backslash pair becomes one backslash and the scan resumes after the pair |
| Escapes.LoneBackslashKept | PySmartClip_Chatpgt_Mubu.py:56 | a backslash not followed by another one is kept |
| Escapes.OtherCharKept | PySmartClip_Chatpgt_Mubu.py:56 | any other character passes through unchanged |
| Escapes.RemoveDoubleBackslashes | PySmartClip_Chatpgt_Mubu.py:54-56 | the stage never lengthens the text and keeps every non-backslash character, in order |
| Escapes.FindControlFrom | PySmartClip_Chatpgt_Mubu.py:94 | `re.search(r'\\u20.{2}')` finds the leftmost `\u20` followed by two non-newline characters, or reports that none exists |
| Escapes.RemoveUnicodeControlChar | PySmartClip_Chatpgt_Mubu.py:89-98 | a finished loop leaves no `\u20`, never lengthens the text, and returns text without `\u20` unchanged |
| Escapes.ControlCutsSixes | PySmartClip_Chatpgt_Mubu.py:93-97 | every pass cuts out exactly six characters, so a finished loop shortens the text by a multiple of six |
| Escapes.ControlCutsLeftmost | PySmartClip_Chatpgt_Mubu.py:93-97 | when the leftmost `\u20` followed by two non-newline characters starts at p, the loop ends as it would on the text with those six characters cut out |
| Escapes.ControlHangs | PySmartClip_Chatpgt_Mubu.py:93-97 | when a `\u20` remains but none has two non-newline characters after it, the loop never finishes |
| Escapes.ControlCutOnce | PySmartClip_Chatpgt_Mubu.py:93-97 | when cutting the leftmost match leaves no `\u20`, the loop finishes with exactly that cut |
| Escapes.ControlCutExample | PySmartClip_Chatpgt_Mubu.py:93-97 | `a\u20XYb` becomes `ab` |
| Escapes.TrailingControlDiverges | PySmartClip_Chatpgt_Mubu.py:93-97 | on `x\u20y`, whose `\u20` has only one character after it, the loop never finishes |
| Escapes.NewlineAfterControlDiverges | PySmartClip_Chatpgt_Mubu.py:93-97 | on `\u20` followed by a newline and `ab` the loop never finishes, since `.` does not match the newline |
| Newline.LetterRun | PySmartClip_Chatpgt_Mubu.py:29 | the greedy `[a-zA-Z]*` takes every letter up to the first non-letter |
| Newline.LetterRunOf | PySmartClip_Chatpgt_Mubu.py:29 | a letter run ended by a non-letter is exactly what the greedy class takes |
| Newline.TokenizeHead | PySmartClip_Chatpgt_Mubu.py:29 | a match starts wherever `\n` starts, and a plain character otherwise |
| Newline.Tokenize | PySmartClip_Chatpgt_Mubu.py:29 | the matches of finditer and the gaps between them tile the text exactly |
| Newline.TokenizeWellTiled | PySmartClip_Chatpgt_Mubu.py:29 | each match takes every following letter, and no `\n` is split across two plain characters |
| Newline.RemoveNewlineChar | PySmartClip_Chatpgt_Mubu.py:32-50 | the loop treats each tile on its own: gaps copied, allow-listed matches kept whole, others lose their `\n` |
| Newline.MarkerStep | PySmartClip_Chatpgt_Mubu.py:29-46 | a `\n` and the letters after it form one match, kept whole when allow-listed and otherwise cut to its letters, and the scan resumes after it |
| Newline.PlainStep | PySmartClip_Chatpgt_Mubu.py:29-50 | a character that does not begin `\n` is copied through |
| Newline.RemoveNewlineLength | PySmartClip_Chatpgt_Mubu.py:35-50 | the output is shorter than the input by exactly two characters per match that is not allow-listed |
| Newline.AllowedOnlyUnchanged | PySmartClip_Chatpgt_Mubu.py:40-41 | text whose every match is allow-listed comes back unchanged, so the stage is idempotent on it |
| Newline.NoMarkerUnchanged | PySmartClip_Chatpgt_Mubu.py:29-50 | text with no backslash followed by `n` has no dropped match and comes back unchanged |
| Newline.AllowedCommandKept | PySmartClip_Chatpgt_Mubu.py:26-41 | `\nabla+` is kept verbatim |
| Newline.OtherEscapeLosesTwo | PySmartClip_Chatpgt_Mubu.py:42-44 | `\nfoo` loses its first two characters and keeps `foo` |
| Newline.NotIdempotent | PySmartClip_Chatpgt_Mubu.py:23-51 | removing one `\n` can create another, so a second application changes the text again |
| Newline.BareEscapeVanishes | PySmartClip_Chatpgt_Mubu.py:42-44 | a `\n` with nothing after it is deleted |
| Duplicate.NonChineseRun | PySmartClip_Chatpgt_Mubu.py:102 | the run is all non-Chinese and stops at a Chinese character or at the end |
| Duplicate.NonChineseRuns | PySmartClip_Chatpgt_Mubu.py:102 | every fragment is non-empty and holds no Chinese character |
| Duplicate.RunsOfNonChinese | PySmartClip_Chatpgt_Mubu.py:102 | a non-empty text without Chinese characters is a single fragment |
| Duplicate.RunsSplitAtChinese | PySmartClip_Chatpgt_Mubu.py:102 | a Chinese character separates fragments: the fragments on either side are found independently |
| Duplicate.TrimBySlice | PySmartClip_Chatpgt_Mubu.py:102-108 | `strip()` and the anchored `re.sub` keep one slice whose cut margins are in the class and whose ends are not |
| Duplicate.TrimTwice | PySmartClip_Chatpgt_Mubu.py:102-105 | trimming by a smaller class and then a larger one is one slice with margins in the larger class |
| Duplicate.TrimUntouched | PySmartClip_Chatpgt_Mubu.py:108 | a text whose ends are not in the class is left alone |
| Duplicate.TrimFragment | PySmartClip_Chatpgt_Mubu.py:102-108 | the three clean-ups keep one slice of the fragment: what is cut off each end is boundary characters, and the slice neither starts nor ends with one |
| Duplicate.ExactIsPerm | PySmartClip_Chatpgt_Mubu.py:123 | a split that passes the exact test also passes the same-characters test |
| Duplicate.Candidates | PySmartClip_Chatpgt_Mubu.py:120 | the candidates are exactly the splits whose character equals the first one, in descending order |
| Duplicate.FirstPassing | PySmartClip_Chatpgt_Mubu.py:121-129 | the loop stops at the first candidate that passes, and every earlier one fails |
| Duplicate.FirstPassingIsLargest | PySmartClip_Chatpgt_Mubu.py:120-121 | the first passing candidate is the largest passing split |
| Duplicate.ChooseSplit | PySmartClip_Chatpgt_Mubu.py:118-148 | a chosen split lies strictly inside the fragment |
| Duplicate.ChoiceWhenExact | PySmartClip_Chatpgt_Mubu.py:120-129 | an exact mirror anywhere means an exact mirror at or after it is chosen |
| Duplicate.ChoiceWhenSameChars | PySmartClip_Chatpgt_Mubu.py:134-147 | with no exact mirror, a same-characters mirror means one at or after it is chosen |
| Duplicate.NothingPasses | PySmartClip_Chatpgt_Mubu.py:121-129 | when no candidate passes, the loop runs off the end of the candidates |
| Duplicate.ChoicePasses | PySmartClip_Chatpgt_Mubu.py:118-148 | whatever is chosen passed one of the two tests |
| Duplicate.MirrorSearchOrder | PySmartClip_Chatpgt_Mubu.py:118-148 | exact mirrors win, the largest first; only without one does the largest same-characters split win; nothing is chosen exactly when no split passes |
| Duplicate.ChoiceExistsWhenMirrored | PySmartClip_Chatpgt_Mubu.py:118-148 | a split is chosen exactly when some split passes the same-characters test |
| Duplicate.SliceMiddle | PySmartClip_Chatpgt_Mubu.py:125 | `part[k:-k]` is at least two characters shorter than the fragment, and empty once the cuts cross |
| Duplicate.Collapse | PySmartClip_Chatpgt_Mubu.py:123-144 | a fragment is rewritten exactly when a split is chosen, into a `$...$` span no longer than the fragment |
| Duplicate.CollapseWhenMirrored | PySmartClip_Chatpgt_Mubu.py:118-148 | a fragment is rewritten exactly when some split passes the same-characters test |
| Duplicate.CollapseAt | PySmartClip_Chatpgt_Mubu.py:123-126 | at the chosen split the mirrored head and tail are cut off, and the span holds the middle, empty when the cuts cross |
| Duplicate.FirstLastEqualCollapses | PySmartClip_Chatpgt_Mubu.py:120-129 | equal first and last characters make the exact test succeed at the last position: one character goes from each end |
| Duplicate.ChoiceIsLastExact | PySmartClip_Chatpgt_Mubu.py:120-129 | the last exact mirror is the split chosen |
| Duplicate.DoubleRenderedSplit | PySmartClip_Chatpgt_Mubu.py:120-129 | in `c∗c^*c∗` the exact test succeeds at position 5 |
| Duplicate.DoubleRenderedExample | PySmartClip_Chatpgt_Mubu.py:120-127 | `c∗c^*c∗` collapses to `$c^*$` |
| Duplicate.NoExactMirrorExample | PySmartClip_Chatpgt_Mubu.py:123 | `abcXacb` has no exact mirror |
| Duplicate.ChoiceIsLastPerm | PySmartClip_Chatpgt_Mubu.py:134-147 | with no exact mirror, the last same-characters mirror is chosen |
| Duplicate.SameCharsSplitExample | PySmartClip_Chatpgt_Mubu.py:134-147 | in `abcXacb` the same-characters test succeeds at position 4 |
| Duplicate.SameCharsExample | PySmartClip_Chatpgt_Mubu.py:134-147 | `abcXacb` collapses to `$X$` |
| Duplicate.DedupeOne | PySmartClip_Chatpgt_Mubu.py:111-147 | one fragment's rewrite never lengthens the text and does nothing when the fragment no longer occurs |
| Duplicate.DedupeAll | PySmartClip_Chatpgt_Mubu.py:111-149 | the rewrites in turn never lengthen the text |
| Duplicate.RemoveDuplicateNonChinese | PySmartClip_Chatpgt_Mubu.py:100-149 | the stage never lengthens the text |
| Duplicate.BoundaryRuns | PySmartClip_Chatpgt_Mubu.py:102 | when every non-Chinese character of the text is a boundary character, so is every character of every fragment |
| Duplicate.BoundaryTrimsAway | PySmartClip_Chatpgt_Mubu.py:102-108 | a fragment of boundary characters only trims to nothing |
| Duplicate.TrimAllBoundaries | PySmartClip_Chatpgt_Mubu.py:102-108 | the same for a whole list of fragments |
| Duplicate.ShortPartsSkipped | PySmartClip_Chatpgt_Mubu.py:112-114 | fragments shorter than two characters leave the text alone |
| Duplicate.BoundaryOnlyUnchanged | PySmartClip_Chatpgt_Mubu.py:100-149 | text whose non-Chinese characters are all boundary characters comes back unchanged |
| Duplicate.FirstOccurrenceOnly | PySmartClip_Chatpgt_Mubu.py:127 | only the first occurrence of the fragment in the text is rewritten |
| Emphasis.ChineseRunIsMaximal | PySmartClip_Chatpgt_Mubu.py:155 | `[一-龥]+` takes every Chinese character up to the first other one |
| Emphasis.ChineseRunCovers | PySmartClip_Chatpgt_Mubu.py:155 | every Chinese run at a position fits inside the greedy run there |
| Emphasis.MatchAtIsGreedyMatch | PySmartClip_Chatpgt_Mubu.py:155-160 | the scan's match is the longest run the pattern accepts, and there is none when the pattern accepts no run |
| Emphasis.MatchDecomposes | PySmartClip_Chatpgt_Mubu.py:155-160 | a match splits the text into opening marker, Chinese run, closing marker and rest |
| Emphasis.UnmarkedMatch | PySmartClip_Chatpgt_Mubu.py:155-160 | a match contributes its run and nothing from its markers once stars and spaces are ignored |
| Emphasis.SubPassAtMatch | PySmartClip_Chatpgt_Mubu.py:155 | at a match `re.sub` emits the group and resumes after the closing marker |
| Emphasis.SubPassCopiesHead | PySmartClip_Chatpgt_Mubu.py:155-160 | a first character that cannot begin a match is copied: one other than the opening marker's first character or, for the passes with no opening marker, one that is not Chinese |
| Emphasis.SubPassOnlyDropsMarks | PySmartClip_Chatpgt_Mubu.py:155-160 | a pass never lengthens the text and changes nothing but stars and spaces |
| Emphasis.SubPassUnmarkedUnchanged | PySmartClip_Chatpgt_Mubu.py:155-160 | a pass leaves text with no star or space unchanged |
| Emphasis.SubPassNoChineseUnchanged | PySmartClip_Chatpgt_Mubu.py:155-160 | a pass leaves text with no Chinese character unchanged, stars and spaces included |
| Emphasis.ApplyPassesOnlyDropsMarks | PySmartClip_Chatpgt_Mubu.py:155-160 | the same holds for a sequence of passes |
| Emphasis.ApplyPassesUnmarkedUnchanged | PySmartClip_Chatpgt_Mubu.py:155-160 | a sequence of passes leaves text with no star or space unchanged |
| Emphasis.ApplyPassesNoChineseUnchanged | PySmartClip_Chatpgt_Mubu.py:155-160 | the passes in turn leave text with no Chinese character unchanged |
| Emphasis.PassesAreMarked | PySmartClip_Chatpgt_Mubu.py:155-160 | each of the six patterns has a star or space marker on at least one side |
| Emphasis.RemoveStarWrappedChinese | PySmartClip_Chatpgt_Mubu.py:151-161 | the stage never lengthens the text and removes only stars and spaces. It leaves unchanged both text without stars and spaces and text without Chinese characters, since every pattern needs a Chinese run |
| Emphasis.WrappedRunUnwrapped | PySmartClip_Chatpgt_Mubu.py:155 | a Chinese run inside the markers is unwrapped and the scan resumes after the closing marker |
| Emphasis.WrappedRunMatches | PySmartClip_Chatpgt_Mubu.py:155 | the pattern matches exactly the Chinese run between the markers |
| Emphasis.SubPassCopiesPrefix | PySmartClip_Chatpgt_Mubu.py:155 | text that cannot begin the opening marker is copied through |
| Emphasis.EmphasisUnwrapped | PySmartClip_Chatpgt_Mubu.py:155-160 | a bold Chinese word between text with no stars or spaces loses its stars, and nothing else changes |
| Emphasis.StarredWordExample | PySmartClip_Chatpgt_Mubu.py:153 | `这是**目标**需要` becomes `这是目标需要` |
| Emphasis.StarredWordPieces | PySmartClip_Chatpgt_Mubu.py:153 | the example is text, a bold Chinese word, and text, with no stars or spaces outside the bold markers |
| Emphasis.OuterStarsKept | PySmartClip_Chatpgt_Mubu.py:155-160 | `****中` becomes `**中`: the second pass removes only the two stars next to the Chinese character |
| Emphasis.StarStageFirstTwo | PySmartClip_Chatpgt_Mubu.py:155-160 | the stage is the `**run**` pass, then the `**run` pass, then the four others |
| Emphasis.ApplyPassesFixed | PySmartClip_Chatpgt_Mubu.py:155-160 | passes that each leave a text unchanged leave it unchanged together |
| MathModes.FirstDollar | PySmartClip_Chatpgt_Mubu.py:64 | the first `$`, with none before it, or none at all |
| MathModes.FirstDollarAfter | PySmartClip_Chatpgt_Mubu.py:63-64 | after a piece with no `$`, the first `$` is the next one, shifted |
| MathModes.SplitAtDollar | PySmartClip_Chatpgt_Mubu.py:63-64 | a text with a `$` splits into a piece with no `$`, the `$`, and the rest |
| MathModes.MapPunct | PySmartClip_Chatpgt_Mubu.py:72 | the punctuation map keeps the length |
| MathModes.ReplaceChainIsMapPunct | PySmartClip_Chatpgt_Mubu.py:72 | the three chained `replace` calls together replace each character by its full-width counterpart |
| MathModes.PunctScan | PySmartClip_Chatpgt_Mubu.py:63-80 | everything still to be emitted is exactly as long as the rest of the text plus the buffer: characters are mapped one for one |
| MathModes.PunctScanIsSegments | PySmartClip_Chatpgt_Mubu.py:63-80 | the scanner matches the reference from every position: in prose the buffer and the rest are one segment; in mathematics the buffer goes out verbatim at the closing `$`, or mapped when there is none |
| MathModes.ReplaceEngWithChnChar | PySmartClip_Chatpgt_Mubu.py:58-82 | replace_eng_with_chn_char equals the segment-wise reference definition |
| MathModes.PunctSegmentsPointwise | PySmartClip_Chatpgt_Mubu.py:63-80 | the reference changes nothing but punctuation, character for character |
| MathModes.ReplaceEngPointwise | PySmartClip_Chatpgt_Mubu.py:58-82 | the stage keeps the length and every `$` in place, and changes only `,` `.` `:`, each into its full-width counterpart |
| MathModes.ReplaceEngProse | PySmartClip_Chatpgt_Mubu.py:79-80 | text with no `$` has every `,` `.` `:` made full-width |
| MathModes.ReplaceEngKeepsSpan | PySmartClip_Chatpgt_Mubu.py:63-77 | a closed `$...$` span is copied verbatim, and the scan carries on in prose after it |
| MathModes.ReplaceEngUnclosedSpan | PySmartClip_Chatpgt_Mubu.py:79-80 | an unclosed trailing `$` does not protect what follows: the tail is mapped like prose |
| MathModes.Clean | PySmartClip_Chatpgt_Mubu.py:177-178 | cleaning deletes every `**` and then every space of either kind, and never lengthens the segment |
| MathModes.SpacesDeleted | PySmartClip_Chatpgt_Mubu.py:178 | deleting spaces and then ideographic spaces keeps exactly the other characters, in order |
| MathModes.CleanSpec | PySmartClip_Chatpgt_Mubu.py:177-178 | a cleaned segment holds no space of either kind, keeps its `$` count and is no longer |
| MathModes.CleanScan | PySmartClip_Chatpgt_Mubu.py:169-194 | everything still to be emitted is no longer than the rest of the text plus the buffer |
| MathModes.CleanScanIsSegments | PySmartClip_Chatpgt_Mubu.py:169-194 | the final_cleanup scanner matches the reference from every position |
| MathModes.FinalCleanup | PySmartClip_Chatpgt_Mubu.py:163-196 | final_cleanup equals the segment-wise reference: prose cleaned, mathematics and every `$` kept, an unclosed tail kept |
| MathModes.CleanSegmentsBounds | PySmartClip_Chatpgt_Mubu.py:169-194 | the reference never lengthens the text and keeps the number of `$` |
| MathModes.FinalCleanupBounds | PySmartClip_Chatpgt_Mubu.py:163-196 | final_cleanup never lengthens the text and keeps the number of `$` |
| MathModes.FinalCleanupProse | PySmartClip_Chatpgt_Mubu.py:187-194 | text with no `$` is cleaned as one prose segment and comes out with no space of either kind |
| MathModes.FinalCleanupKeepsSpan | PySmartClip_Chatpgt_Mubu.py:170-180 | a closed `$...$` span is copied verbatim, spaces included, and cleaning resumes after it |
| MathModes.FinalCleanupUnclosedSpan | PySmartClip_Chatpgt_Mubu.py:188-190 | an unclosed trailing `$` keeps what follows it verbatim |
| MathModes.CleanupCanLeaveStars | PySmartClip_Chatpgt_Mubu.py:177-178 | `**` is deleted before spaces, so `* *` comes out as `**` |
| MathModes.CleanupRemovesStars | PySmartClip_Chatpgt_Mubu.py:177-178 | a second cleanup removes that `**`, so the stage is not idempotent |
| Pipeline.ProcessText | PySmartClip_Chatpgt_Mubu.py:6-17 | when the pipeline finishes, its output is no longer than its input |
| Pipeline.ProcessTextTotal | PySmartClip_Chatpgt_Mubu.py:6-17 | text without a backslash always comes through, since only the control-character loop can spin |
| Pipeline.EarlyStagesKeep | PySmartClip_Chatpgt_Mubu.py:8-12 | the first five stages leave text of Chinese characters and `*` unchanged |
| Pipeline.LateStagesKeep | PySmartClip_Chatpgt_Mubu.py:14-15 | the last two stages leave Chinese-only text unchanged |
| Pipeline.StarStageOnwards | PySmartClip_Chatpgt_Mubu.py:6-17 | on text of Chinese characters and `*`, only the last three stages act |
| Pipeline.ChineseOnlyUnchanged | PySmartClip_Chatpgt_Mubu.py:6-17 | plain Chinese text passes through the whole pipeline unchanged |
| Pipeline.StarredRunUnwrapped | PySmartClip_Chatpgt_Mubu.py:6-17 | markdown bold around a Chinese word in Chinese text is removed, and nothing else changes |
| Pipeline.StarredWordExample | PySmartClip_Chatpgt_Mubu.py:222 | `这是**目标**需要实现的功能` becomes `这是目标需要实现的功能` |
| Pipeline.StarredWordPieces | PySmartClip_Chatpgt_Mubu.py:222 | the example is Chinese text, a bold Chinese word, and Chinese text |

## Left out

- `convert_to_raw_text` (lines 84-87) is not modelled. It depends on Python's `repr` escaping and
  quote choice, and its `strip("'")` also eats quotes that belong to the content. The model's
  pipeline starts from its output.
- The clipboard polling, the copy button and the tkinter window (lines 198-251) are I/O and UI, and
  are not modelled.
- Of the module-level test prints (lines 220-226), only the bold-word case at line 222 is proved end
  to end. The others are long mixed formula texts.
- Escapes.RemoveUnicodeControlChar: when the source's loop never finishes, the model returns `None`
  and does not model the hang.
- Regular expressions in general are not modelled. Each pattern the source uses is a hand-written
  scanner, proved to find the regex's match where that is not obvious.
- MathModes.FinalCleanupProse: it states that cleaned prose holds no space of either kind, but not
  that it holds no `**`. That stronger promise does not hold: `MathModes.CleanupCanLeaveStars`
  shows `* *` becoming `**`.
