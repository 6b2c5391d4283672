# devcard heatmap and card helpers, modelled in Dafny

This project models the computational core of the devcard scripts.

The first part is the shared heatmap library, `lib/heatmap.mjs`, which the terminal and HTML renderers both import:

- `buildHourDist` turns the `claude` section of a card into a 24-bucket hour-of-day distribution, or `null`. It takes a flat `hour_distribution` array of 24 entries, or else sums a 7-day `heatmap` matrix column by column.
- `rotateHeatmap` scans 48 slots for the longest circular run of quiet hours. A quiet hour is at or below a tenth of the maximum. It then rotates the day so that the middle of that run becomes the first bucket.
- `heatmapAxisLabels` names the hours under positions 0, 6, 12, 18 and 23.

The second part is the helpers of the two renderers that turn card data into text:

- `render-card.mjs`:
  - the control-character filter `stripCtrl` and the recursive `sanitizeData`;
  - the greedy `wordWrap`;
  - `capitalize`;
  - the glyph row and axis line of the heatmap;
  - the peak-hour labels.
- `serve-card.mjs`:
  - the entity escapers `esc` and `escapeXml`;
  - the link allow-list `safeHref`;
  - the question and card data placed in the chat prompt (`buildChatPrompt`, `buildSafeCardData`);
  - the project status class;
  - the legacy/new field-name fallback;
  - the heatmap cells of the page.

## Structure

- `js.dfy`, module `Js`: the JavaScript built-ins the scripts rely on, with their ECMAScript meaning:
  - truthiness and `||`;
  - property access on an ordered entry list;
  - `%` truncating toward zero;
  - `String(n)` and reading it back;
  - the `\s` whitespace set, `trim`, `split('\n')` and `split(/\s+/)`;
  - global one-character `replace`, ASCII case mapping, `join` and `padEnd`.
- `heatmap.dfy`, module `Heatmap`: the three library functions.
  - `buildHourDist` and `rotateHeatmap` are methods with their loops. Both are proved equal to the specification functions `HourDist` and `Rotate`.
  - The scan loop is also specified step by step through `ScanStep`/`Scan`.
  - The invariants `RunInv` and `BestInv` say what the four loop variables mean after each slot.
- `render_card.dfy`, module `RenderCard`: `stripCtrl`, `sanitizeData` (a method with its loops, and the function `Sanitized`), `wordWrap` (a method with both loops, proved equal to `Wrapped`), `capitalize`, and the glyph row, axis line and peak labels.
- `serve_card.dfy`, module `ServeCard`: the escapers, `safeHref`, the chat question, `buildSafeCardData` (a method with its loop, proved equal to `SafeCardData`), the status class, the field fallback and the heatmap cells.

## Modelling decisions

- **Values.**
  - Decoded YAML values are the datatype `Js.JsonValue`. An object is the list of its own entries, in `Object.entries` order, and numbers are integers.
  - A `heatmap` row is `NumRow`, `TextRow` or `OtherRow`. `TextRow` carries the outcome of `JSON.parse`: the parsed cells, or `None` when the text does not parse to an array. A cell is `None` when `Number(x)` is not a number, which `|| 0` turns into 0.
- **Quiet test.** "At or below 10% of the maximum" is written exactly on integers, as `10 * v <= max`.
- **Field fallback.** It follows the code: each field reads its legacy name first (`since`, `messages`, `model`) and the new name (`active_since`, `total_messages`, `primary_model`) only when the legacy one is falsy, so a card holding both names shows the legacy value.
- **Peak labels.** They are modelled as written: an hour up to 12 gets "am", so noon is "12am" and midnight "0am" (`RenderCard.PeakLabelExamples`).
- **Axis line columns.** The terminal axis line puts its labels in other columns than the glyphs they name (see Findings). `RenderCard.HeatmapLines` prints the line as written, `AxisLineAsWritten`, and lemmas show the misalignment. `RenderCard.HeatmapLinesCorrected` prints the corrected line `AxisLine` instead, and `RenderCard.HeatmapLinesAligned` proves that its labels sit under the glyphs they name.
- **`wordWrap` quirk.** A paragraph whose first word does not fit starts with an empty line (`RenderCard.LongFirstWordPushesEmptyLine`). The model keeps that behaviour.

## Model

| member | source | states |
|---|---|---|
| Heatmap.HourDist | plugins/devcard/scripts/lib/heatmap.mjs:10-31 | whenever a distribution is returned it has exactly 24 buckets |
| Heatmap.BuildHourDist | plugins/devcard/scripts/lib/heatmap.mjs:10-31 | the method, with its zero-filled array updated in place row by row, returns exactly `HourDist(cl)` |
| Heatmap.HourDistCases | plugins/devcard/scripts/lib/heatmap.mjs:11-30 | a 24-entry flat array wins whatever the matrix holds; the result is null exactly when there is no 24-entry flat array and no matrix; otherwise bucket h is the column sum of the matrix |
| Heatmap.ColumnSumConcat | plugins/devcard/scripts/lib/heatmap.mjs:16-27 | column sums add up over a concatenation of row lists |
| Heatmap.RowOrderIrrelevant | plugins/devcard/scripts/lib/heatmap.mjs:16-27 | swapping two blocks of rows leaves the distribution unchanged |
| Heatmap.UnreadableRowsIgnored | plugins/devcard/scripts/lib/heatmap.mjs:18-23 | rows that are neither arrays nor text parsing to an array add nothing to any hour |
| Heatmap.ExtraColumnsIgnored | plugins/devcard/scripts/lib/heatmap.mjs:24-26 | rows that agree on their first 24 cells give the same sums, so cells past index 23 and missing trailing cells change nothing |
| Heatmap.EmptyMatrixGivesZeros | plugins/devcard/scripts/lib/heatmap.mjs:14-15 | an empty matrix gives 24 zeros, not null |
| Heatmap.ColumnSumNonNegative | plugins/devcard/scripts/lib/heatmap.mjs:24-26 | non-negative rows give non-negative column sums |
| Heatmap.HourDistNonNegative | plugins/devcard/scripts/lib/heatmap.mjs:10-31 | non-negative input gives a non-negative distribution on both paths |
| Heatmap.ThreeRowExample | plugins/devcard/scripts/lib/heatmap.mjs:14-28 | three rows `[1, 0, …, 0, 2]` sum to `[3, 0, …, 0, 6]` |
| Heatmap.Max | plugins/devcard/scripts/lib/heatmap.mjs:54 | `Math.max(...dist)` bounds every bucket and is one of them |
| Heatmap.ScanStep | plugins/devcard/scripts/lib/heatmap.mjs:65-78 | one slot of the scan: a quiet slot extends the run (starting it at this slot if none is open) up to 24 and makes it the best run only when strictly longer; a loud slot closes the run; the best length never drops |
| Heatmap.Scan | plugins/devcard/scripts/lib/heatmap.mjs:64-79 | after n slots the current run is no longer than the best one, and the best one is at most 24 and at most n long |
| Heatmap.DayScan | plugins/devcard/scripts/lib/heatmap.mjs:59-79 | the 48-slot scan's best run is 0 to 24 hours long |
| Heatmap.Midpoint | plugins/devcard/scripts/lib/heatmap.mjs:87 | the start hour lies in 0..23 and, for a found run, is `(bestStart + floor(bestLen / 2)) % 24` |
| Heatmap.ScanQuietHours | plugins/devcard/scripts/lib/heatmap.mjs:59-79 | the 48-slot loop leaves `bestStart` and `bestLen` equal to those of `DayScan(d)` |
| Heatmap.Rotate | plugins/devcard/scripts/lib/heatmap.mjs:44-101 | null gives 24 zeros with start 0; a wrong-length array comes back unchanged with start 0; for 24 buckets the result has 24 buckets, `0 <= startHour < 24` and `data[i] == dist[(i + startHour) % 24]` |
| Heatmap.RotateHeatmap | plugins/devcard/scripts/lib/heatmap.mjs:44-101 | the method, with the scan and the fill loop, returns exactly `Rotate(dist)` |
| Heatmap.RunStartAfterStep | plugins/devcard/scripts/lib/heatmap.mjs:66-68 | the run a quiet slot extends starts no later than any quiet stretch ending there |
| Heatmap.StepQuietRun | plugins/devcard/scripts/lib/heatmap.mjs:66-70 | a quiet slot keeps the meaning of `runStart`/`runLen`: a maximal quiet stretch, length capped at 24 |
| Heatmap.StepQuietBest | plugins/devcard/scripts/lib/heatmap.mjs:71-74 | a quiet slot keeps `bestStart`/`bestLen` the first longest quiet run seen so far, through the strict `>` |
| Heatmap.StepNotQuiet | plugins/devcard/scripts/lib/heatmap.mjs:75-78 | a loud slot resets the current run and keeps the best one |
| Heatmap.StepKeepsInv | plugins/devcard/scripts/lib/heatmap.mjs:64-79 | one iteration of the scan loop preserves both invariants |
| Heatmap.ScanInv | plugins/devcard/scripts/lib/heatmap.mjs:64-79 | after every number of slots the loop variables satisfy both invariants |
| Heatmap.QuietRunShift | plugins/devcard/scripts/lib/heatmap.mjs:65 | a run seen 24 slots later, through `i % 24`, is the same run |
| Heatmap.ScanBestIsADayRun | plugins/devcard/scripts/lib/heatmap.mjs:59-79 | after 48 slots the best run starts at an hour 0..23 and is at most 24 long |
| Heatmap.ScanEmptyIffNoQuietHour | plugins/devcard/scripts/lib/heatmap.mjs:64-84 | `bestLen` is 0 exactly when no hour is quiet |
| Heatmap.AllQuietFullRun | plugins/devcard/scripts/lib/heatmap.mjs:69-70 | when every hour is quiet the cap makes the best run all 24 hours from hour 0 |
| Heatmap.DayRunAllQuiet | plugins/devcard/scripts/lib/heatmap.mjs:65-66 | a quiet run of 24 slots covers every hour |
| Heatmap.FullRunAllQuiet | plugins/devcard/scripts/lib/heatmap.mjs:69-74 | a best run of 24 means every hour is quiet |
| Heatmap.ScanFullIffAllQuiet | plugins/devcard/scripts/lib/heatmap.mjs:69-74 | the best run spans 24 hours exactly when every hour is quiet, and then starts at 0 |
| Heatmap.QuietScan | plugins/devcard/scripts/lib/heatmap.mjs:59-87 | the best run is a circular quiet run of at most 24 hours starting at an hour 0..23, no quiet run is longer, no earlier hour starts one as long; 0 exactly when no hour is quiet, 24 exactly when all are |
| Heatmap.RotateByIsSplice | plugins/devcard/scripts/lib/heatmap.mjs:95-98 | rotating by k is `dist[k..] + dist[..k]` |
| Heatmap.RotateByPreservesValues | plugins/devcard/scripts/lib/heatmap.mjs:95-98 | rotating keeps the multiset of values and the total |
| Heatmap.RotateIsRotateBy | plugins/devcard/scripts/lib/heatmap.mjs:86-100 | for 24 buckets the result is the input rotated by its own `startHour`, which lies in 0..23 |
| Heatmap.RotatePreservesValues | plugins/devcard/scripts/lib/heatmap.mjs:95-100 | the returned data has the same multiset of values and the same total as the input |
| Heatmap.RotateIsCyclicShift | plugins/devcard/scripts/lib/heatmap.mjs:95-100 | the returned data is a cyclic shift of the input: rotation equation plus same multiset |
| Heatmap.RotationCases | plugins/devcard/scripts/lib/heatmap.mjs:49-100 | start 0 (and data unchanged) exactly when the total is 0, no hour is quiet, the midpoint is 0 or the run is shorter than 3; otherwise start is the midpoint `(bestStart + bestLen / 2) % 24` |
| Heatmap.RotationCentresQuietRun | plugins/devcard/scripts/lib/heatmap.mjs:59-100 | a rotation starts at the middle of the first longest circular quiet run, at least 3 long |
| Heatmap.AllZeroNotRotated | plugins/devcard/scripts/lib/heatmap.mjs:49-52 | an all-zero day is returned unchanged with start 0 |
| Heatmap.NoQuietHourNotRotated | plugins/devcard/scripts/lib/heatmap.mjs:81-84 | with no quiet hour the day is returned unchanged with start 0 |
| Heatmap.UniformNotRotated | plugins/devcard/scripts/lib/heatmap.mjs:81-84 | a uniform non-zero day is returned unchanged with start 0 |
| Heatmap.SinglePeakKept | plugins/devcard/scripts/lib/heatmap.mjs:95-100 | a single peak of 100 appears exactly once after rotation |
| Heatmap.QuietAtHour | plugins/devcard/scripts/lib/heatmap.mjs:65-66 | slot h of the first day is quiet exactly when that hour is at most a tenth of the maximum |
| Heatmap.NightWorkerQuietHours | plugins/devcard/scripts/lib/heatmap.mjs:54-66 | for the night-worker day the maximum is 22 and the quiet hours are exactly 5..18 |
| Heatmap.QuietFiveToEighteenStartsAtNoon | plugins/devcard/scripts/lib/heatmap.mjs:59-100 | a non-zero day whose quiet hours are exactly 5..18 is rotated by 12 |
| Heatmap.NightWorkerStartsAtNoon | plugins/devcard/scripts/lib/heatmap.mjs:44-101 | the night-worker day is rotated to start at hour 12 |
| Heatmap.NightWorkerActiveBlock | plugins/devcard/scripts/lib/heatmap.mjs:44-101 | in the rotated night-worker day the sessions sit in the contiguous block of columns 6..16, and the hours above a tenth of the maximum in columns 7..16 |
| Heatmap.AxisLabels | plugins/devcard/scripts/lib/heatmap.mjs:110-114 | exactly five labels, one per axis position |
| Heatmap.AxisLabelsAreHours | plugins/devcard/scripts/lib/heatmap.mjs:110-114 | for a non-negative start, label k reads back as the hour `(position_k + startHour) % 24`, an hour 0..23 |
| Heatmap.AxisLabelsUnrotated | plugins/devcard/scripts/lib/heatmap.mjs:110-114 | start 0 gives "0", "6", "12", "18", "23" |
| Heatmap.AxisLabelsFromSix | plugins/devcard/scripts/lib/heatmap.mjs:110-114 | start 6 gives "6", "12", "18", "0", "5" |
| Heatmap.AxisLabelsFromEighteen | plugins/devcard/scripts/lib/heatmap.mjs:110-114 | start 18 gives "18", "0", "6", "12", "17" |
| Heatmap.AxisLabelsNightWorker | plugins/devcard/scripts/lib/heatmap.mjs:110-114 | start 12 gives "12", "18", "0", "6", "11" |
| Js.Or | plugins/devcard/scripts/render-card.mjs:201-203 | `a \|\| b` is `a` when truthy, else `b` |
| Js.Get | plugins/devcard/scripts/serve-card.mjs:105-107 | the value of the first entry with the key; `undefined` (JNull) when no entry has it; a defined value always comes from an entry with that key |
| Js.JsRem | plugins/devcard/scripts/lib/heatmap.mjs:113 | JavaScript `%` agrees with the mathematical remainder for non-negative operands |
| Js.IntToStringRoundTrip | plugins/devcard/scripts/lib/heatmap.mjs:113 | `String(n)` reads back as `n` |
| Js.NatToStringInjective | plugins/devcard/scripts/lib/heatmap.mjs:113 | distinct hours get distinct labels |
| Js.ToLower | plugins/devcard/scripts/serve-card.mjs:56 | same length, every ASCII capital lowered, everything else kept |
| Js.TrimStart | plugins/devcard/scripts/serve-card.mjs:56 | the result is a suffix without leading whitespace, and what was removed is all whitespace |
| Js.TrimEnd | plugins/devcard/scripts/serve-card.mjs:56 | the result is a prefix without trailing whitespace, and what was removed is all whitespace |
| Js.TrimEmptyIffAllWhitespace | plugins/devcard/scripts/render-card.mjs:270 | `trim()` gives "" exactly when the paragraph is all whitespace |
| Js.ReplaceCharPointwise | plugins/devcard/scripts/render-card.mjs:264 | replacing one character by one character keeps the length and changes exactly the matching positions |
| Js.ReplaceAllConcat | plugins/devcard/scripts/serve-card.mjs:52 | a global one-character replacement distributes over concatenation |
| Js.SplitOnSepFree | plugins/devcard/scripts/render-card.mjs:269 | no piece of `split('\n')` holds a line feed |
| Js.SplitOnJoin | plugins/devcard/scripts/render-card.mjs:269 | joining the pieces with `\n` gives back the text |
| Js.SplitOnConcat | plugins/devcard/scripts/render-card.mjs:269 | splitting `a + "\n" + b` gives the pieces of `a` then those of `b` |
| Js.SplitOnNoSeparator | plugins/devcard/scripts/render-card.mjs:269 | text without a line feed is one piece |
| Js.JoinSplitRoundTrip | plugins/devcard/scripts/render-card.mjs:228 | joining a non-empty list of separator-free pieces and splitting at the separator gives the pieces back |
| Js.SplitWhitespaceWords | plugins/devcard/scripts/render-card.mjs:271 | no piece of `split(/\s+/)` holds whitespace |
| Js.SplitAllWhitespace | plugins/devcard/scripts/render-card.mjs:271 | splitting all-whitespace text gives only empty pieces |
| Js.PadEnd | plugins/devcard/scripts/render-card.mjs:251 | `padEnd(n)` keeps the text, pads with spaces and is `max(n, length)` long |
| Js.UpperAscii | plugins/devcard/scripts/render-card.mjs:264 | ASCII lower-case letters move up by 32, everything else is kept |
| RenderCard.StripCtrl | plugins/devcard/scripts/render-card.mjs:48-50 | the result has no control character and is no longer than the input |
| RenderCard.StripCtrlMembers | plugins/devcard/scripts/render-card.mjs:48-50 | a character survives exactly when it was present and is not in 0x00–0x08, 0x0B, 0x0C, 0x0E–0x1F, 0x7F–0x9F |
| RenderCard.StripCtrlConcat | plugins/devcard/scripts/render-card.mjs:48-50 | stripping distributes over concatenation, so kept characters stay in order |
| RenderCard.StripCtrlClean | plugins/devcard/scripts/render-card.mjs:46-50 | text without control characters, with tab, line feed and carriage return, is left unchanged |
| RenderCard.StripCtrlIdempotent | plugins/devcard/scripts/render-card.mjs:48-50 | stripping twice equals stripping once |
| RenderCard.SanitizeData | plugins/devcard/scripts/render-card.mjs:52-61 | the method, with its map over arrays and loop filling the object, returns `Sanitized(v)` |
| RenderCard.SanitizeKeepsShape | plugins/devcard/scripts/render-card.mjs:52-61 | array lengths and order, object keys and order, and every non-string scalar are unchanged |
| RenderCard.SanitizedIsClean | plugins/devcard/scripts/render-card.mjs:52-61 | no string value of the result holds a control character |
| RenderCard.SanitizeCleanIsIdentity | plugins/devcard/scripts/render-card.mjs:52-61 | a value without control characters comes back unchanged |
| RenderCard.SanitizeIdempotent | plugins/devcard/scripts/render-card.mjs:52-61 | sanitising twice equals sanitising once |
| RenderCard.SanitizeStripsEveryString | plugins/devcard/scripts/render-card.mjs:52-61 | the string values of the result are `stripCtrl` of those of the input, in document order |
| RenderCard.FillLines | plugins/devcard/scripts/render-card.mjs:272-281 | the inner loop and final push give exactly `Fill(words, maxWidth, "")` |
| RenderCard.WrapParagraphLines | plugins/devcard/scripts/render-card.mjs:270-281 | one paragraph gives `WrapParagraph(para, maxWidth)`: `[""]` when blank, else its filled lines |
| RenderCard.WordWrap | plugins/devcard/scripts/render-card.mjs:267-284 | the method with both loops returns `Wrapped(text, maxWidth)`, the paragraphs between line feeds wrapped one after the other |
| RenderCard.ParagraphLinesConcat | plugins/devcard/scripts/render-card.mjs:269-282 | paragraphs are wrapped independently of each other |
| RenderCard.ParagraphLinesAt | plugins/devcard/scripts/render-card.mjs:269-282 | entry k of the lines is the wrap of paragraph k |
| RenderCard.WrapAtLineFeed | plugins/devcard/scripts/render-card.mjs:269 | text joined at a line feed wraps as its two parts, one after the other |
| RenderCard.BlankParagraphOneLine | plugins/devcard/scripts/render-card.mjs:270 | an empty or whitespace-only paragraph contributes exactly one empty line |
| RenderCard.FillFits | plugins/devcard/scripts/render-card.mjs:273-281 | every pushed line fits the width or is a single word |
| RenderCard.ParagraphWidth | plugins/devcard/scripts/render-card.mjs:271-281 | a line of a paragraph longer than the width is one whitespace-free word of it |
| RenderCard.WrapWidth | plugins/devcard/scripts/render-card.mjs:267-284 | over the whole text, a line longer than the width holds no whitespace, so it is one word |
| RenderCard.TokensExtend | plugins/devcard/scripts/render-card.mjs:278 | appending a word with a space adds exactly that word to the line's words |
| RenderCard.FillTokens | plugins/devcard/scripts/render-card.mjs:272-281 | the words on the pushed lines are the current line's words followed by the non-empty input words |
| RenderCard.ParagraphKeepsWords | plugins/devcard/scripts/render-card.mjs:271-281 | the words on a paragraph's lines are exactly its non-empty words, each once, in order |
| RenderCard.LongFirstWordPushesEmptyLine | plugins/devcard/scripts/render-card.mjs:274-276 | a first word that does not fit makes the paragraph start with an empty line |
| RenderCard.Capitalize | plugins/devcard/scripts/render-card.mjs:263-265 | same length, first character upper-cased, every later `_` turned into `/`, everything else kept; the same function is also defined at serve-card.mjs lines 888-890 |
| RenderCard.CapitalizeIdempotent | plugins/devcard/scripts/render-card.mjs:263-265 | no `_` is left past the first character, and capitalising again changes nothing |
| RenderCard.GlyphScale | plugins/devcard/scripts/render-card.mjs:239 | `Math.max(...data, 1)` is at least 1, bounds every bucket and is 1 or one of them |
| RenderCard.ScaleOfSameValues | plugins/devcard/scripts/render-card.mjs:239 | days with the same values have the same scale |
| RenderCard.GlyphMonotone | plugins/devcard/scripts/render-card.mjs:240-246 | for non-negative counts glyphs grow with the value, a space is shown exactly for 0 and the full block at the scale |
| RenderCard.GlyphQuarters | plugins/devcard/scripts/render-card.mjs:241-246 | a positive value's glyph is decided by which quarter of the scale it reaches |
| RenderCard.Glyph | plugins/devcard/scripts/render-card.mjs:240-246 | a space exactly for 0, the full block at or above the scale, the lightest shade below a quarter of it |
| RenderCard.Blocks | plugins/devcard/scripts/render-card.mjs:240-247 | one glyph per bucket |
| RenderCard.BlocksOfShift | plugins/devcard/scripts/render-card.mjs:239-247 | the glyphs of a shifted day are those of the original hours, on the original scale |
| RenderCard.BlocksOfRotation | plugins/devcard/scripts/render-card.mjs:236-247 | glyph i of the rotated day shows hour `(i + startHour) % 24` against the scale of the whole day |
| RenderCard.HeatmapGlyphs | plugins/devcard/scripts/render-card.mjs:233-249 | the glyph row exists exactly when a distribution does; it has 24 buckets and is the row of the rotated day |
| RenderCard.HeatmapLines | plugins/devcard/scripts/render-card.mjs:233-252 | the glyph row and the axis line as written are printed exactly when a distribution exists, and the row has 24 glyphs |
| RenderCard.HeatmapLinesCorrected | plugins/devcard/scripts/render-card.mjs:233-252 | the variant with the corrected axis line exists exactly when the printed lines do and has the same glyph row |
| RenderCard.HeatmapAxisAsWritten | plugins/devcard/scripts/render-card.mjs:250-252 | in the printed lines the labels of the current start hour start in columns 0, 8, 15, 22 and 26, and the line ends with the last label |
| RenderCard.HeatmapLinesAligned | plugins/devcard/scripts/render-card.mjs:233-252 | in the corrected lines the glyph in column i shows hour `(i + startHour) % 24`, and each label starts in its axis position and names the hour of that column |
| RenderCard.AxisLineAsWritten | plugins/devcard/scripts/render-card.mjs:251 | the line as written starts with the first label, ends with the last, and is at least 26 columns plus the last label long |
| RenderCard.AxisLineAsWrittenColumns | plugins/devcard/scripts/render-card.mjs:251 | as written, short labels start in columns 0, 8, 15, 22 and 26 |
| RenderCard.AxisLineAsWrittenMisaligned | plugins/devcard/scripts/render-card.mjs:250-251 | unrotated, the written line is 28 wide, column 6 is blank and "6" sits in column 8 |
| RenderCard.AxisLabelsShort | plugins/devcard/scripts/lib/heatmap.mjs:113 | every axis label has one or two digits |
| RenderCard.AxisLineColumns | plugins/devcard/scripts/render-card.mjs:250 | in the corrected line, short labels start in columns 0, 6, 12, 18 and 23 |
| RenderCard.AxisLine | plugins/devcard/scripts/render-card.mjs:250-251 | the corrected line starts with the first label, ends with the last, and is at least 23 columns plus the last label long |
| RenderCard.AxisLineAligned | plugins/devcard/scripts/render-card.mjs:250-251 | each label starts in the column of the glyph whose hour it names |
| RenderCard.PeakLabelRoundTrip | plugins/devcard/scripts/render-card.mjs:228 | every hour reads back from its am/pm label |
| RenderCard.PeakLabelsDistinct | plugins/devcard/scripts/render-card.mjs:228 | two hours get the same label exactly when they are equal |
| RenderCard.PeakLabelExamples | plugins/devcard/scripts/render-card.mjs:228 | 0 → "0am", 9 → "9am", 12 → "12am", 13 → "1pm", 23 → "11pm" |
| RenderCard.PeakLabel | plugins/devcard/scripts/render-card.mjs:228 | a label is a number followed by "pm" for hours past 12 (the number being h - 12) and by "am" otherwise (the number being h) |
| RenderCard.PeakSuffix | plugins/devcard/scripts/render-card.mjs:228 | no peak hours give ""; otherwise the text is ` (peak: ` … `)`, and an empty list gives ` (peak: )` |
| RenderCard.PeakLabelNoDash | plugins/devcard/scripts/render-card.mjs:228 | the label of a non-negative hour holds no `-` |
| RenderCard.PeakSuffixReadsBack | plugins/devcard/scripts/render-card.mjs:228 | for a non-empty list of non-negative hours, the text between ` (peak: ` and `)` splits at `-` into exactly the hours' labels, and each label reads back as its hour |
| ServeCard.EscValue | plugins/devcard/scripts/serve-card.mjs:51-53 | null and undefined become "", and the result holds no raw `<` or `"` |
| ServeCard.ToJsString | plugins/devcard/scripts/serve-card.mjs:52 | `'' + v` gives a string itself, reads back as the number for a number, and is "true" exactly for true |
| ServeCard.Esc | plugins/devcard/scripts/serve-card.mjs:51-53 | text without `&`, `<`, `>` or `"` is returned unchanged |
| ServeCard.EscapeXml | plugins/devcard/scripts/serve-card.mjs:954-961 | text without `&`, `<`, `>`, `"` or `'` is returned unchanged |
| ServeCard.EscSplit | plugins/devcard/scripts/serve-card.mjs:51-53 | esc distributes over concatenation |
| ServeCard.EscOneChar | plugins/devcard/scripts/serve-card.mjs:52 | one character becomes its entity (`&` first, so never double-escaped), `'` is kept |
| ServeCard.EscIsOnePass | plugins/devcard/scripts/serve-card.mjs:51-53 | the chain of four global replacements equals escaping character by character |
| ServeCard.ApostropheReplaceOnePass | plugins/devcard/scripts/serve-card.mjs:960 | the fifth replacement of escapeXml only touches the apostrophes esc left |
| ServeCard.EscapeXmlIsOnePass | plugins/devcard/scripts/serve-card.mjs:954-961 | escapeXml equals escaping five characters in one pass |
| ServeCard.EscapeXmlWithoutApostrophe | plugins/devcard/scripts/serve-card.mjs:954-961 | on text without `'`, escapeXml and esc agree |
| ServeCard.EscapeEachSafe | plugins/devcard/scripts/serve-card.mjs:51-53 | the one-pass escape leaves no raw `<`, `>` or `"`, and no `'` in the escapeXml variant |
| ServeCard.EscSafe | plugins/devcard/scripts/serve-card.mjs:51-53 | esc output holds no raw `<`, `>` or `"` |
| ServeCard.EscapeXmlSafe | plugins/devcard/scripts/serve-card.mjs:954-961 | escapeXml output holds no raw `<`, `>`, `"` or `'` |
| ServeCard.EscapeEachRoundTrip | plugins/devcard/scripts/serve-card.mjs:51-53 | decoding the entities gives back the escaped text, in both variants |
| ServeCard.EscRoundTrip | plugins/devcard/scripts/serve-card.mjs:51-53 | decoding the four entities recovers the input of esc |
| ServeCard.EscapeXmlRoundTrip | plugins/devcard/scripts/serve-card.mjs:954-961 | decoding the five entities recovers the input of escapeXml |
| ServeCard.SafeHref | plugins/devcard/scripts/serve-card.mjs:55-58 | the result is the link or "#", and the link exactly when its trimmed lower-cased form starts with https://, http:// or mailto: (or the link is "#") |
| ServeCard.AllowedLink | plugins/devcard/scripts/serve-card.mjs:56-57 | an allowed link's trimmed lower-cased text never starts with `javascript:` |
| ServeCard.SafeHrefNoScript | plugins/devcard/scripts/serve-card.mjs:55-58 | no result of safeHref starts a `javascript:` link, in any case and with any surrounding whitespace |
| ServeCard.ScriptLinkRejected | plugins/devcard/scripts/serve-card.mjs:55-58 | a `javascript:` link becomes "#" |
| ServeCard.Truncate | plugins/devcard/scripts/serve-card.mjs:977 | `slice(0, 500)`: a prefix of the question, the whole question when it has at most 500 characters, and exactly 500 characters otherwise |
| ServeCard.SanitizeQuestion | plugins/devcard/scripts/serve-card.mjs:977 | the sanitised question holds no `<` or `>` |
| ServeCard.SanitizeQuestionSafe | plugins/devcard/scripts/serve-card.mjs:977 | the sanitised question holds no `<` or `>`, and decodes back to exactly the first 500 characters |
| ServeCard.ChatPrompt | plugins/devcard/scripts/serve-card.mjs:976-998 | the prompt is the rules, then `<devcard_data>`, a line feed and the safe card data, then the text closing that element and opening `<user_question>`, and its length leaves room for exactly the sanitised question and the closing tag |
| ServeCard.ChatPromptEndsWithQuestion | plugins/devcard/scripts/serve-card.mjs:976-998 | the prompt ends with the sanitised question and the closing tag, starting right where the opening `<user_question>` ends, with no `<` inside the element |
| ServeCard.BuildSafeCardData | plugins/devcard/scripts/serve-card.mjs:963-974 | the method with its loop returns exactly `SafeCardData(entries, stringify)` |
| ServeCard.SafeCardData | plugins/devcard/scripts/serve-card.mjs:963-974 | the card data placed in the prompt holds no `<` or `>` |
| ServeCard.Kept | plugins/devcard/scripts/serve-card.mjs:966-971 | every kept entry is an entry of the card and is written |
| ServeCard.KeptConcat | plugins/devcard/scripts/serve-card.mjs:969-972 | the filter distributes over concatenation, so kept entries keep their order |
| ServeCard.KeptExactly | plugins/devcard/scripts/serve-card.mjs:966-971 | an entry is written exactly when it is in the card, is not `private_note` and is not null or undefined |
| ServeCard.SafeCardDataSafe | plugins/devcard/scripts/serve-card.mjs:963-974 | no kept entry is `private_note`, and the escaped text holds no raw `<` or `>` |
| ServeCard.StatusClass | plugins/devcard/scripts/serve-card.mjs:203-208 | the class is an allowed status or "default"; it is an allowed status exactly when the status is one, and then it is that status itself |
| ServeCard.StatusDefaultIffUnknown | plugins/devcard/scripts/serve-card.mjs:203-208 | the class is "default" exactly when the status is not one of the four allowed ones |
| ServeCard.StatusOf | plugins/devcard/scripts/serve-card.mjs:207 | `proj.status \|\| ''` is the status when it is truthy and "" otherwise |
| ServeCard.StatusTag | plugins/devcard/scripts/serve-card.mjs:209 | a falsy status gives no tag; a truthy one opens with the span whose class is `tag-` plus the status class and `[`, closes with `]</span>`, and the text between holds no raw `<` or `"` and decodes back to the status text |
| ServeCard.FallbackOrder | plugins/devcard/scripts/serve-card.mjs:105-107 | the legacy name wins when truthy, then the new name, then the default |
| ServeCard.FallbackNamesAgree | plugins/devcard/scripts/serve-card.mjs:105-107 | a card with only the new names shows the same since, messages and model as one with the legacy names |
| ServeCard.Since | plugins/devcard/scripts/serve-card.mjs:105 | a truthy `since` wins; a falsy `since` with a truthy `active_since` gives `active_since`; any truthy result is one of the two; otherwise "" |
| ServeCard.Messages | plugins/devcard/scripts/serve-card.mjs:106 | a truthy `messages` wins; a falsy `messages` with a truthy `total_messages` gives `total_messages`; any truthy result is one of the two; otherwise 0 |
| ServeCard.Model | plugins/devcard/scripts/serve-card.mjs:107 | a truthy `model` wins; a falsy `model` with a truthy `primary_model` gives `primary_model`; any truthy result is one of the two; otherwise "" |
| ServeCard.Cells | plugins/devcard/scripts/serve-card.mjs:131-136 | one cell per bucket |
| ServeCard.HeatmapCells | plugins/devcard/scripts/serve-card.mjs:124-136 | cells exist exactly when a distribution does, and then there are 24 |
| ServeCard.CellsShowTheirHour | plugins/devcard/scripts/serve-card.mjs:127-136 | cell i stands for hour `(i + startHour) % 24` and shows that hour's count |
| ServeCard.CellsDistinct | plugins/devcard/scripts/serve-card.mjs:131-132 | no two cells stand for the same hour |
| ServeCard.CellsCover | plugins/devcard/scripts/serve-card.mjs:131-132 | every hour is shown by cell `(h - startHour + 24) % 24` |
| ServeCard.CellsUnderLabels | plugins/devcard/scripts/serve-card.mjs:129-132 | the cell at each axis position shows the hour its label names |
| ServeCard.CellTitleSafe | plugins/devcard/scripts/serve-card.mjs:134-135 | the escaped title holds no `"` or `<`, so it cannot leave its attribute |
| ServeCard.CellTitle | plugins/devcard/scripts/serve-card.mjs:134 | the title starts with the hour and `:00`, the text between ` — ` and ` session` reads back as the count, and it ends in "n" (one session) exactly when the count is 1, else in "s" |

## Findings

| source | as written | input that shows it | evidently intended | confidence | as-written member | corrected member |
|---|---|---|---|---|---|---|
| plugins/devcard/scripts/render-card.mjs:251 | the axis labels are padded to 8, 7, 7 and 4 columns, so they start in columns 0, 8, 15, 22 and 26 | start hour 0: the labels "0", "6", "12", "18", "23" give a 28-column line with "6" in column 8, under hour 8's glyph, and "23" past the 24-glyph row | labels in columns 0, 6, 12, 18 and 23, under the glyphs they name, as the comment at line 250 says | not executed | RenderCard.AxisLineAsWrittenMisaligned | RenderCard.HeatmapLinesAligned |

## Left out

- Floating point: numbers are integers. `Number(x)` of a non-numeric flat `hour_distribution` entry (NaN) and fractional counts are not modelled. `Number(x) \|\| 0` in matrix rows is modelled through the `Option` cells.
- `v / max` in the glyph and `dist[h] <= max * 0.1` are compared exactly on integers. For integer counts this matches the floating-point comparison.
- The heatmap opacity (`toFixed(2)`), `fmtNum`, and the `Date` formatting of `since` are not modelled, because they are float and locale formatting.
- `JSON.parse` of text rows is not modelled: a `TextRow` carries its outcome. `JSON.stringify` of object values in `buildSafeCardData` is the function parameter `stringify`.
- Heatmap.Rotate: a truthy non-array argument of `rotateHeatmap` cannot be expressed (its input is an optional integer array). The code would return that value as is.
- Strings are sequences of Unicode scalar values. `slice(0, 500)` and `length` count UTF-16 code units, so they differ from the model for characters outside the Basic Multilingual Plane.
- `toUpperCase` and `toLowerCase` are modelled on ASCII letters only, in `capitalize` and `safeHref`.
- RenderCard.PeakSuffixReadsBack: stated for non-negative hours, the range `peak_hours` holds; a negative hour's label starts with `-` and would split apart.
- RenderCard.PeakSuffix: `peak_hours` is an optional list of integers. A truthy value that is not an array (which would make `map` throw) is not modelled.
- ServeCard.SafeHref: `String(url)` on a non-string link is not modelled; the link is text.
- ServeCard.ToJsString: `'' + v` is modelled for the scalar, array and object values a decoded card holds, not for other object kinds.
- Object entries are a list without a uniqueness check on keys; `{ ...data }` followed by `delete` is modelled as filtering that list.
- The rules text of the chat prompt is the parameter `rules` of `ServeCard.ChatPrompt`.
- The card layout, HTML/CSS templating, ANSI colours, the browser chat script, the HTTP server, subprocesses, file and stdin I/O, and the YAML parser are not modelled: they are I/O or templating, or their source is not part of this model.
- Heatmap.AxisLabelsAreHours: stated for non-negative start hours only. A negative start is computed with JavaScript's `%` (`Js.JsRem`), but never arises from `rotateHeatmap`.
