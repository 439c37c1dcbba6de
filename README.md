# text_align in Dafny

A model of the `text_align` crate's `TextAlign` operations on a single line of
text. Each operation is proved against the promises its code makes.

- `center_align`, `left_align` and `right_align` pad a line with spaces to a
  target width.
  - Each trims the start of the line and measures it, counting a final
    newline.
  - A line that is already wide enough comes back unchanged.
  - Otherwise the trimmed text is emitted with blanks before it, after it, or
    half on each side (the extra one on the right), then the newline again.
- `justify` splits a line into words on ASCII whitespace.
  - The spaces needed to reach the width are shared between the gaps: each gap
    gets the same quotient.
  - The remainder goes one space at a time to the gaps chosen by an index
    spreader.
  - The result is the words with those gaps between them, plus the newline if
    the line had one.
- `dejustify(n)` undoes justification.
  - Every run of two or more gap characters becomes one space.
  - When `n > 1`, the single gap character after a `.`, `?` or `!` becomes `n`
    spaces.
  - The gap class of the source's patterns, `[' ']`, holds the space and the
    apostrophe. So `dogs'  toy` collapses to `dogs toy`. This is why
    `Justify.DejustifyJustified` asks for a line without apostrophes.
- `get_evenly_seleted_indices` (src/helper_functions.rs) is modelled as it is
  written: it returns every index below its count.

Modules:

| file | module | what it holds |
|---|---|---|
| `wrappers.dfy` | `Wrappers` | the `Option` datatype |
| `text.dfy` | `Text` | whitespace classes, `trim_start`, `trim_end` and `" ".repeat` |
| `align.dfy` | `Align` | the three alignments, as functions |
| `layout.dfy` | `Layout` | `split_ascii_whitespace` (`Words`) and writing words with gaps (`Interleave`) |
| `index_spread.dfy` | `IndexSpread` | the contract `justify` needs from its spreader, and one spreader that meets it |
| `justify.dfy` | `Justify` | the specification `Justified`, and the method `Justify` that builds the counts in an array |
| `dejustify.dfy` | `Dejustify` | the scans that replace the regular expressions, the specification `Dejustified`, and the method `Dejustify` with its loop over the three marks |
| `helper_functions.dfy` | `HelperFunctions` | `get_evenly_seleted_indices` and `flatten` |

The code panics in two modelled cases:

- `justify` with a width above the line length, on a line of zero or one word.
  This is a `usize` subtraction below zero, or a division by zero.
- `get_evenly_seleted_indices` with `distribution_value > items_count`. This is
  the `usize` subtraction at src/helper_functions.rs:2.

Each becomes the operation's precondition: `Justify.JustifyDefined` and the
`requires` of `HelperFunctions.EvenlySelectedIndices`.

## Model

| member | source | states |
|---|---|---|
| Text.IsWhitespace | src/lib.rs:45 | the whitespace `trim_start` and `trim_end` drop: the space and the control characters tab to carriage return, and nothing else |
| Text.IsAsciiWhitespace | src/lib.rs:124 | the separators of `split_ascii_whitespace`: the same class without the vertical tab |
| Text.EndsWithNewline | src/lib.rs:47 | `ends_with('\n')`: a line that holds is its prefix followed by one newline, which is whitespace |
| Text.Trim | src/lib.rs:45-48 | `trim_start` then `trim_end`: no longer than the input, and empty or starting and ending with non-whitespace |
| Text.Spaces | src/lib.rs:65 | `" ".repeat(n)` is `n` characters, every one a space |
| Text.TrimStart | src/lib.rs:45 | the result is a suffix of the input that is empty or starts with non-whitespace |
| Text.TrimStartDropsWhitespace | src/lib.rs:45 | everything `trim_start` removes is whitespace, so it removes the longest whitespace prefix |
| Text.TrimEnd | src/lib.rs:48 | the result is a prefix of the input that is empty or ends with non-whitespace |
| Text.TrimEndDropsWhitespace | src/lib.rs:48 | everything `trim_end` removes is whitespace |
| Text.TrimStartSplit | src/lib.rs:45 | whitespace followed by text that starts otherwise trims to that text |
| Text.TrimEndSplit | src/lib.rs:117 | text that ends otherwise, followed by whitespace, trims to that text |
| Align.NewlineWidth | src/lib.rs:47-52 | `has_newline` as the 0 or 1 added to `width`: 1 exactly when the start-trimmed text ends with a newline, and never more than that text's length |
| Align.NewlineSuffix | src/lib.rs:61 | `last_character`: as long as `NewlineWidth`, all whitespace, and when present the last character of the start-trimmed text |
| Align.Fits | src/lib.rs:54-56 | the early-return test `width <= text_length` (with `width` raised for a newline); a fitting line is at least `width` long, and longer when it ends with a newline |
| Align.Padding | src/lib.rs:58 | the `spaces`/`padding_length` of a line that does not fit: at least one and at most `width + 1`, and with the measured length it makes up `width` plus the newline |
| Align.Half | src/lib.rs:59 | `spaces / 2` rounds down: twice the half is `spaces` or one less |
| Align.CenterAlign | src/lib.rs:44-70 | the input comes back unchanged when `width` (plus one for a newline) is at most the start-trimmed length; otherwise the result is `width` long plus the newline, less the trailing whitespace the measure counted but the output drops |
| Align.LeftAlign | src/lib.rs:72-90 | the same unchanged-or-width contract for `left_align` |
| Align.RightAlign | src/lib.rs:92-110 | the same unchanged-or-width contract for `right_align` |
| Align.TrimmedShape | src/lib.rs:45-48 | the trimmed text is empty exactly when the start-trimmed text is; it starts and ends with non-whitespace; and the measured length covers it and the newline |
| Align.AlignLayout | src/lib.rs:58-109 | a padded line is the text, blanks and newline (left); blanks, text and newline (right); or blanks, text, blanks and newline, with the right run equal to the left or one longer (center) |
| Align.CenterAlignKeepsText | src/lib.rs:63-69 | trimming the centered line gives the trimmed input: padding never changes the text |
| Align.LeftAlignKeepsText | src/lib.rs:89 | the same for `left_align` |
| Align.RightAlignKeepsText | src/lib.rs:109 | the same for `right_align` |
| Align.AlignNormalisedWidth | src/lib.rs:44-110 | for a line with no stray outer whitespace, every alignment's result is as long as the larger of `width` plus the newline and the line |
| Align.MeasureLine | src/lib.rs:45-48 | a line of leading whitespace, text and an optional newline measures as that text and newline |
| Align.CenterAlignEvenExamples | src/lib.rs:190-192 | the inline tests `"hi".center_align(3, 5, 8)` |
| Align.CenterAlignEvenLineExamples | src/lib.rs:195-196 | the inline tests `"hi\n".center_align(3, 5)`: the newline stays after the right blanks |
| Align.CenterAlignEvenLineWideExample | src/lib.rs:197 | the inline test `"hi\n".center_align(8)` |
| Align.CenterAlignOddExamples | src/lib.rs:203-205 | the inline tests `"doggy".center_align(3, 8, 9)` |
| Align.CenterAlignOddLineExamples | src/lib.rs:208-209 | the inline tests `"doggy\n".center_align(3, 8)` |
| Align.CenterAlignOddLineWideExample | src/lib.rs:210 | the inline test `"doggy\n".center_align(9)` |
| Align.RightAlignExamples | src/lib.rs:216-218 | the inline tests `"hi".right_align(1, 3, 5)`: unchanged when it fits, otherwise blanks before the text |
| Align.RightAlignLineExamples | src/lib.rs:221-223 | the inline tests `"hi\n".right_align(1, 3, 5)`: the newline stays last |
| Align.LeftAlignExamples | src/lib.rs:229-231 | the inline tests of `left_align` without a newline, leading blanks dropped |
| Align.LeftAlignLineExamples | src/lib.rs:234-236 | the same with a final newline, which stays last |
| Align.LeftAlignGreeting | src/lib.rs:3-6 | the crate example: a line with 26 leading blanks, left-aligned to 50, has them after the text instead |
| Align.RightAlignGreeting | src/lib.rs:8-11 | the crate example: right-aligned to 50, the 24-character line gets 26 blanks before it |
| Align.CenterAlignGreeting | src/lib.rs:13-16 | the crate example: centred to 50, 13 blanks on each side |
| Layout.WordEnd | src/lib.rs:124 | the first word's length: no ASCII whitespace before it, whitespace or the end at it |
| Layout.Words | src/lib.rs:124 | `split_ascii_whitespace` yields nonempty pieces with no ASCII whitespace, no longer in total than the line |
| Layout.WordsAfterWord | src/lib.rs:124 | a word followed by whitespace or the end is split off as it is |
| Layout.WordsAfterBlank | src/lib.rs:124 | leading ASCII whitespace yields no word |
| Layout.WordsAfterGap | src/lib.rs:124 | a word and a run of one or more spaces split off as that word |
| Layout.WordsAvoid | src/lib.rs:124 | a character absent from the line is in none of its words |
| Layout.SumLengths | src/lib.rs:125 | `length_of_words`: at least the number of words when none is empty |
| Layout.Interleave | src/lib.rs:149-154 | the written-out line starts with the first word's first character |
| Layout.InterleaveLength | src/lib.rs:149-154 | the written-out line is as long as the words and the gaps together |
| Layout.InterleaveLastChar | src/lib.rs:144-154 | with the 0 pushed for the last word, the line ends with that word's last character |
| Layout.WordsOfInterleave | src/lib.rs:124-154 | splitting words written with gaps of one or more spaces, and a whitespace tail, gives the same words back |
| Layout.WordsOfJoin | src/lib.rs:124 | words one space apart split back to the same words |
| IndexSpread.SpreadOk | src/lib.rs:133-135 | what `justify` needs of one answer: `None` only for no remainder, else exactly that many distinct indices below the gap count; an answer that meets it for a nonzero remainder is `Some` with a first index in range |
| IndexSpread.SpreadContract | src/lib.rs:133-135 | `SpreadOk` for every remainder below the gap count; a spreader that meets it spreads nothing when there is no remainder |
| IndexSpread.IndexSpread | src/lib.rs:133-137 | for a remainder below the gap count: `None` only for no remainder, otherwise exactly that many distinct gap indices, each in range |
| IndexSpread.IndexSpreadMeetsContract | src/lib.rs:133-135 | the spreader meets the contract `justify` relies on for every remainder |
| IndexSpread.BucketsOk | src/lib.rs:133-135 | the bucket-centred picks are strictly increasing, distinct and in range |
| IndexSpread.BucketBounds | src/lib.rs:133 | each pick lies inside its own bucket of the gaps, so the picks are spread evenly |
| IndexSpread.IndexSpreadExamples | src/lib.rs:246-248 | the picks the tests need: one extra over two gaps goes to gap 1, two over three to gaps 0 and 1 |
| Justify.JustifyBody | src/lib.rs:113-118 | the measured body is a prefix of the line |
| Justify.LineEnd | src/lib.rs:147 | the re-emitted `last_character` is whitespace |
| Justify.JustifyDefined | src/lib.rs:119-128 | `justify` does not panic: the body is at least `width` long (the early return), or it has at least two words; a line no narrower than `width` is always defined |
| Justify.Repeat | src/lib.rs:131 | `vec![v; n]` has `n` entries |
| Justify.Increment | src/lib.rs:134-136 | incrementing in place keeps the number of gaps |
| Justify.SpaceCounts | src/lib.rs:131-137 | one count per gap |
| Justify.SpacesRequired | src/lib.rs:125-128 | the spaces to place and the words' lengths add up to `width`, and there are at least as many spaces as words, so every gap gets at least one and `spaces_per_block` is never zero |
| Justify.Blocks | src/lib.rs:127 | a padded line has at least one gap |
| Justify.GapWidths | src/lib.rs:126-137 | one width per gap |
| Justify.Justified | src/lib.rs:112-157 | a line whose body is at least `width` long comes back unchanged |
| Justify.Justify | src/lib.rs:112-157 | the method (array of counts, loop over the spreader's picks, push of 0, concatenation) returns `Justified` |
| Justify.FillSpaceCounts | src/lib.rs:131-137 | the `space_counts` array, filled with the quotient and then incremented at each pick, holds `SpaceCounts` |
| Justify.AddOneAt | src/lib.rs:133-137 | the loop leaves the array holding the counts with one added per pick |
| Justify.Concatenate | src/lib.rs:149-154 | the loop's text is the words each followed by its count of spaces |
| Justify.IncrementCounts | src/lib.rs:134-136 | each count grows by the number of times its index was picked |
| Justify.IncrementSum | src/lib.rs:134-136 | each pick adds one space in total |
| Justify.SumRepeat | src/lib.rs:131 | the initial counts hold `per * gaps` spaces |
| Justify.SpaceCountsEven | src/lib.rs:128-136 | with a valid pick, every gap gets the quotient or one more, and the total is quotient times gaps plus remainder |
| Justify.GapWidthsEven | src/lib.rs:126-136 | each gap of a justified line gets `per` or `per + 1` spaces with `per >= 1`, and the words and gaps fill exactly `width` |
| Justify.JustifiedWidth | src/lib.rs:124-156 | a justified line is exactly `width` long, plus its newline |
| Justify.JustifiedWords | src/lib.rs:124-156 | splitting a justified line gives the line's words, in order |
| Justify.DejustifyJustified | src/lib.rs:112-180 | `dejustify(n)` of a justified line without apostrophes gives its words one space apart (or `n` after sentence ends), plus its newline |
| Justify.JoinedBody | src/lib.rs:113-124 | for words one space apart, with an optional newline, the body is the joined words and they split back to the same words |
| Justify.JustifyJoined | src/lib.rs:112-157 | such a line, justified wider than it is, is its words with the spreader's gaps |
| Justify.JustifyJoinedSplit | src/lib.rs:126-137 | the same, with the quotient, remainder and pick given |
| Justify.JustifyGoodDogFits | src/lib.rs:242-243 | `"Good dog".justify(1)` and `justify(8)` return the line |
| Justify.JustifyGoodDogNine | src/lib.rs:244 | `"Good dog".justify(9)` |
| Justify.JustifyGoodDogTen | src/lib.rs:245 | `"Good dog".justify(10)` |
| Justify.JustifyReallyGoodDogSixteen | src/lib.rs:246 | `"Really good dog".justify(16)`: the extra space goes to the second gap |
| Justify.JustifyReallyGoodDogSeventeen | src/lib.rs:247 | `"Really good dog".justify(17)` |
| Justify.JustifyReallyGoodDogEighteen | src/lib.rs:248 | `"Really good dog".justify(18)` |
| Justify.JustifyGoodDogLineFits | src/lib.rs:251-252 | `"Good dog\n".justify(1)` and `justify(8)` return the line |
| Justify.JustifyGoodDogLineNine | src/lib.rs:253 | `"Good dog\n".justify(9)` |
| Justify.JustifyGoodDogLineTen | src/lib.rs:254 | `"Good dog\n".justify(10)` |
| Justify.JustifyReallyGoodDogLineSixteen | src/lib.rs:255 | `"Really good dog\n".justify(16)` |
| Justify.JustifyReallyGoodDogLineSeventeen | src/lib.rs:256 | `"Really good dog\n".justify(17)` |
| Justify.JustifyReallyGoodDogLineEighteen | src/lib.rs:257 | `"Really good dog\n".justify(18)` |
| Justify.JustifyGreeting | src/lib.rs:18-21 | the crate example: `"Hello my dearest friend!".justify(50)` puts 10, 10 and 9 spaces between the words |
| Justify.DejustifyGreeting | src/lib.rs:23-26 | the crate example: `dejustify(2)` of that line gives the sentence back |
| Dejustify.InClass | src/lib.rs:162 | the character class `[' ']`: the only whitespace in it is the space, and the only other character is the apostrophe, so tabs and newlines are never collapsed |
| Dejustify.ClassRun | src/lib.rs:162 | the length of the run of gap characters that starts the text |
| Dejustify.Collapse | src/lib.rs:162 | collapsing never lengthens the text, and keeps the kind of its first character |
| Dejustify.CollapseLeavesNoPair | src/lib.rs:162 | after collapsing, no two gap characters are neighbours |
| Dejustify.CollapseFixed | src/lib.rs:162 | text without two neighbouring gap characters is left as it is |
| Dejustify.CollapseKeepsWord | src/lib.rs:162 | text without gap characters passes through a collapse unchanged |
| Dejustify.CollapseSpaces | src/lib.rs:162 | a run of one or more spaces before a non-gap character becomes one space |
| Dejustify.WidenAfter | src/lib.rs:168-175 | one `replace_matches` pass: each `<mark>[' ']` becomes the mark and `n` spaces, leftmost and non-overlapping; it keeps the first character and, for `n >= 1`, never shortens the text; `WidenAfterJoins` ties it to `WidenAfterAny` |
| Dejustify.WidenAfterAny | src/lib.rs:167-176 | the replacement scans keep the first character |
| Dejustify.WidenAfterNone | src/lib.rs:164-176 | with no marks, the scan changes nothing |
| Dejustify.WidenAfterJoins | src/lib.rs:174-176 | one more replacement pass after the scan for some marks is the scan for all of them, so the loop's three passes are one scan |
| Dejustify.Dejustified | src/lib.rs:160-180 | what `dejustify(n)` returns: nonempty for nonempty input, its first character is a gap character exactly when the input's is, and for `n <= 1` it is no longer than the input and has no two neighbouring gap characters |
| Dejustify.Dejustify | src/lib.rs:160-180 | the method (collapse, then one replacement per mark in a loop) returns `Dejustified` |
| Dejustify.DejustifyIdempotent | src/lib.rs:160-180 | dejustifying twice is dejustifying once |
| Dejustify.CollapseKeepsText | src/lib.rs:162 | collapsing changes only gap characters |
| Dejustify.WidenKeepsText | src/lib.rs:167-176 | the replacements change only gap characters |
| Dejustify.DejustifyKeepsText | src/lib.rs:160-180 | dejustifying keeps every other character, newlines included, in order |
| Dejustify.CollapseInterleave | src/lib.rs:162 | pieces written with gaps of any width collapse to the pieces one space apart |
| Dejustify.WidenJoin | src/lib.rs:164-176 | widening pieces one space apart puts `n` spaces after each piece that ends a sentence |
| Dejustify.DejustifyGapped | src/lib.rs:160-180 | pieces written with any gaps dejustify to the pieces one space apart, or with `n` spaces after sentence ends when `n > 1` |
| Dejustify.DejustifyBudExample | src/lib.rs:263-265 | the inline test `dejustify(1)` on `"Hi    bud.    How    are    you?"` |
| Dejustify.DejustifyBudWideExample | src/lib.rs:267-269 | the same line with `dejustify(2)` |
| Dejustify.DejustifyHeyExample | src/lib.rs:271-273 | `dejustify(2)` puts two spaces after each of `!`, `?` and `.` |
| Dejustify.DejustifyHeyLinesExample | src/lib.rs:275-277 | a line break is not a gap and stays |
| Dejustify.DejustifyBudLineExample | src/lib.rs:281-283 | the first test with a final newline |
| Dejustify.DejustifyBudWideLineExample | src/lib.rs:285-287 | the second test with a final newline |
| Dejustify.DejustifyHeyLineExample | src/lib.rs:289-291 | the third test with a final newline |
| Dejustify.DejustifyHeyLinesLineExample | src/lib.rs:293-295 | the fourth test with a final newline |
| HelperFunctions.Flatten | src/helper_functions.rs:7 | flattening keeps at most as many values as there were options, each from a `Some` |
| HelperFunctions.FlattenSomes | src/helper_functions.rs:3-7 | options that are all `Some` flatten to their values, nothing dropped or reordered |
| HelperFunctions.FlattenSkipsNone | src/helper_functions.rs:7 | a `None` anywhere is dropped and the rest is kept |
| HelperFunctions.EvenlySelectedIndices | src/helper_functions.rs:1-10 | the result is exactly `0, 1, …, items_count - 1` |
| HelperFunctions.EvenlySelectedIndicesShape | src/helper_functions.rs:2-9 | the result is strictly increasing and in range, and the same for every distribution value |
| HelperFunctions.EvenlySelectedIndicesOfEight | src/helper_functions.rs:19 | the call `(8, 3)` returns all eight indices |

## Left out

- `get_index_spread` is not part of this model; src/helper_functions.rs does not define it.
  - `justify` takes the spreader as a parameter. The contract it needs (`IndexSpread.SpreadContract`) is its precondition.
  - `IndexSpread.IndexSpread` is one spreader that meets it. It is a chosen stand-in: it splits the gaps into `extra` equal buckets and picks the middle of each (`i * slots / extra + slots / (2 * extra)`), which gives the picks the tests and the crate example need.
- `replace_matches` is not part of this model, and neither is the regular-expression engine.
  - The four patterns `dejustify` passes are written as scans: leftmost, non-overlapping, replace-all.
- Strings are ASCII text.
  - UTF-8 byte lengths are not modelled.
  - Unicode whitespace beyond ASCII is not modelled: `trim_start` and `trim_end` use the ASCII part of `char::is_whitespace`.
- Integers are unbounded. `width += 1` overflowing at `usize::MAX` is not modelled.
- Panics become preconditions:
  - `justify` on a zero- or one-word line wider than its width (`Justify.JustifyDefined`).
  - `get_evenly_seleted_indices` with a distribution value above the count (the `usize` subtraction).
- The generic impl over `AsRef<str> + fmt::Display` is left out. So are `to_string` and the `format!`/`repeat`/`join` mechanics; these are sequence concatenation.
- The test disabled in src/helper_functions.rs expects `[0, 3, 6]`, and the scratch notes there describe a selection. Neither is the behaviour of the code, so neither is modelled.
