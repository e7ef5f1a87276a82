# superfile text helpers in Dafny

This project models the string and byte helpers of superfile's file panel, all found in
`src/internal/string_function.go`. It covers:

- the three name truncators:
  - `truncateText` cuts at the end;
  - `truncateTextBeginning` cuts at the start;
  - `truncateMiddleText` keeps a head and a tail;
- the extension stripper `fileNameWithoutExtension`;
- the preview line clamp `checkAndTruncateLineLengths`;
- the byte classifiers `isBufferPrintable` and `makePrintable`;
- the archive-extension test `isExensionExtractable`.

The files are:

- `text.dfy` (module `Text`) fixes the vocabulary.
  - A Go string is a Dafny `string`, i.e. its runes.
  - `Utf8` gives its bytes, so Go's `len` of a string is `ByteLen`, a byte count.
  - Bytes are the `byte` newtype.
- `ansi.dfy` (module `Ansi`) stands in for `ansi.StringWidth` and `ansi.Truncate(s, n, "")` from the terminal library.
  - The model does not implement them. Each operation that needs them takes them as arguments, bundled in an `Oracle` value.
  - `Lawful` states what callers rely on, for text without escape sequences:
    - the empty string has width 0;
    - for `n >= 0`, `Truncate(s, n)` is a prefix of `s` with width at most `n`;
    - it is `s` itself when `s` already fits;
    - putting ASCII text before or after a string adds at most one cell per ASCII character.
  - `PlainOracle` (one cell per rune) shows that these laws can all hold at once. `MarkOracle` also satisfies them, and it gives the combining acute accent U+0301 no cell, as a terminal does.
- `truncate.dfy`, `filename.dfy`, `lines.dfy` and `printable.dfy` follow the Go functions one by one.
  - Where Go changes variables in a loop, the model has a `method` with the same loop. It is proved equal to a specification function, and lemmas state the properties of that function.
  - Where Go is a single expression, the model is a function plus lemmas.

A slice-bounds panic in Go is an `Outcome.Panic` result, not a precondition:

- `truncateTextBeginning` panics for a negative `maxChars`. The loop empties the rune slice and then slices `[1:]` once more.
- `truncateMiddleText` panics for a `maxChars` of 1 or less, when the text is longer than that. Go's `/` rounds toward zero, so `(maxChars-3)/2` is negative there. At `maxChars == 2` it is 0, which does not panic.

Two places where the code does something other than what a reader of its intent would expect (the model follows the code):

- `truncateText` cuts at `maxChars - len(talis)`. Text whose width fits `maxChars` but not that smaller budget is therefore still cut and marked (`Truncate.TruncateTextCutsFittingText`).
- The start and middle truncators have no guard against a small budget. They panic, as described above, instead of clamping it.

## Model

| member | source | states |
|---|---|---|
| Truncate.TruncateText | src/internal/string_function.go:20-27 | the result is the text itself, or the library's cut at `maxChars - len(talis)` with the marker after it |
| Truncate.TruncateTextFits | src/internal/string_function.go:20-27 | with an ASCII marker and `maxChars - len(talis) >= 0`, the result's width is at most `maxChars`, whether cut or not |
| Truncate.TruncateTextUnchanged | src/internal/string_function.go:20-27 | text within the budget left after the marker is returned as is, without marker |
| Truncate.TruncateTextCut | src/internal/string_function.go:20-27 | wider text becomes the library's cut plus the marker; the cut is a strict prefix of the text that fits `maxChars - len(talis)` |
| Truncate.TruncateTextCutsFittingText | src/internal/string_function.go:21-23 | a 5-rune name with a 5-cell budget and marker "..." still comes back as "ab..." |
| Truncate.DropToFit | src/internal/string_function.go:38-41 | when the loop ends normally, what is left is a rune suffix of the text whose width fits the budget |
| Truncate.TruncateTextBeginning | src/internal/string_function.go:29-47 | the loop and overlay compute `TruncateStart`: text that fits is unchanged, otherwise the drop loop runs, then the marker overlays the front |
| Truncate.DropToFitLongest | src/internal/string_function.go:38-41 | with a budget of at least 0 the loop terminates at the longest suffix that fits; every longer suffix is too wide |
| Truncate.DropToFitNegative | src/internal/string_function.go:38-41 | with a negative budget the loop drains the slice and panics |
| Truncate.TruncateStartPanics | src/internal/string_function.go:29-47 | truncateTextBeginning panics exactly when `maxChars < 0` |
| Truncate.TruncateStartUnchanged | src/internal/string_function.go:30-32 | text whose width fits is returned unchanged |
| Truncate.TruncateStartCut | src/internal/string_function.go:34-47 | wider text is cut to its longest strict rune suffix of width at most `maxChars`, then overlaid with the marker |
| Truncate.Overlay | src/internal/string_function.go:43-45 | the overlay never adds runes, and keeps the rune count for an ASCII marker; a suffix with more runes than `len(talis)` bytes gets the marker in front of its runes from index `len(talis)`; a shorter one is left alone |
| Truncate.DropToFitAccents | src/internal/string_function.go:38-41 | on "x" and three U+0301 then "ab" with budget 2, the loop drops only the "x" |
| Truncate.OverlayAccents | src/internal/string_function.go:43-45 | the marker "..." takes the place of the three accents in front of "ab" |
| Truncate.TruncateStartExceedsBudget | src/internal/string_function.go:29-47 | with a lawful library that gives U+0301 no cell, the result "...ab" is 5 cells wide for a budget of 2 |
| Truncate.TruncateStartFittedFits | src/internal/string_function.go:29-47 | the corrected start truncator, for an ASCII marker and a budget of at least 0, never panics and never exceeds the budget; it returns a suffix of the text, or the marker in front of one |
| Truncate.TruncateStartFittedExample | src/internal/string_function.go:29-47 | on the input above the corrected truncator returns the accents and "ab", 2 cells |
| Truncate.GoQuo | src/internal/string_function.go:55 | Go's `/` rounds toward zero: the remainder has the sign of the dividend and is smaller than the divisor |
| Truncate.TruncateMiddleTextAsWritten | src/internal/string_function.go:50-60 | the byte-slicing code panics exactly when the text is longer than `maxChars` and `maxChars < 2` |
| Truncate.TruncateMiddleText | src/internal/string_function.go:50-60 | the rune-wise version panics in exactly the same cases |
| Truncate.TruncateMiddleTextUnchanged | src/internal/string_function.go:51-53 | text of at most `maxChars` runes is returned unchanged, by both versions |
| Truncate.TruncateMiddleTextCut | src/internal/string_function.go:55-57 | for `3 <= maxChars` and longer text: head and tail of equal length `h = (maxChars-3)/2` around the marker; `h` is the largest with `2h+3 <= maxChars`; at least four runes are removed; with a 3-rune marker the result fits `maxChars` |
| Truncate.TruncateMiddleTextBudgetTwo | src/internal/string_function.go:55-57 | at `maxChars == 2` the half length rounds to 0 and only the marker is left |
| Truncate.TruncateMiddleTextExample | src/internal/string_function.go:50-60 | "abcdefghij" with budget 7 and "..." gives "ab...ij" |
| Truncate.TruncateMiddleTextAsciiAgrees | src/internal/string_function.go:50-60 | on ASCII text the byte-slicing code equals the UTF-8 encoding of the rune-wise result, panics included |
| Truncate.TruncateMiddleTextAsWrittenSplitsRune | src/internal/string_function.go:57 | five "é" with budget 4: the code yields bytes that are the encoding of no string, while the rune-wise result is "..." |
| FileName.LastIndexOf | src/internal/string_function.go:101 | the index of the last occurrence, with no occurrence after it, or -1 |
| FileName.FileNameWithoutExtension | src/internal/string_function.go:99-108 | the loop returns a prefix of the name with no dot after index 0, ending just before a dot when shorter (the first dot after index 0) |
| FileName.WithoutExtensionIdempotent | src/internal/string_function.go:99-108 | stripping twice is stripping once |
| FileName.WithoutExtensionKeepsPlainNames | src/internal/string_function.go:100-104 | a name with no dot after index 0 is returned unchanged |
| FileName.WithoutExtensionExamples | src/internal/string_function.go:99-108 | ".bashrc" and "README" are unchanged, "a.tar.gz" gives "a", ".a.b" gives ".a" |
| FileName.LowerRune | src/internal/string_function.go:171 | the rune changes exactly when it is an ASCII capital, U+0130 or U+212A, and then becomes a small ASCII letter (a capital moves by 32); the result is ASCII exactly when the input is ASCII or one of those two; the result has nothing left to lower |
| FileName.ToLower | src/internal/string_function.go:171 | same length; every rune of the result is already lower case; the result is ASCII exactly when every input rune is ASCII, U+0130 or U+212A |
| FileName.ToLowerIdempotent | src/internal/string_function.go:171 | lowering twice is lowering once |
| FileName.IsExtensionExtractable | src/internal/string_function.go:158-173 | only an extension of 3 to 8 runes starting with a dot can be accepted |
| FileName.ArchiveExtensionIsLower | src/internal/string_function.go:160-170 | every listed extension is ASCII and already lower case |
| FileName.IsExtensionExtractableMatchesFold | src/internal/string_function.go:158-173 | true exactly when the extension equals one of the nine listed ones up to case |
| FileName.IsExtensionExtractableIgnoresCase | src/internal/string_function.go:171 | names that differ only in case get the same verdict |
| FileName.IsExtensionExtractableRejectsNonAscii | src/internal/string_function.go:171 | an extension holding a non-ASCII rune other than U+0130 and U+212A is rejected |
| FileName.IsExtensionExtractableExamples | src/internal/string_function.go:158-173 | ".ZIP", ".Tar.Gz" and ".İSO" are accepted, ".tar.xz" and "zip" are not |
| Lines.Split | src/internal/string_function.go:131 | at least one piece, and no piece holds a newline |
| Lines.JoinSplit | src/internal/string_function.go:131 | joining the pieces with newlines gives back the text |
| Lines.SplitJoin | src/internal/string_function.go:131 | splitting newline-free lines joined by newlines gives back the lines |
| Lines.SplitExamples | src/internal/string_function.go:131 | "" gives [""], "a\n" gives ["a", ""], "a\n\tb" gives ["a", "\tb"] |
| Lines.ExpandTabs | src/internal/string_function.go:136 | no tab in the result; no newline is introduced; a tab-free line is unchanged |
| Lines.ExpandTabsCounts | src/internal/string_function.go:136 | each tab adds three characters and four spaces |
| Lines.ExpandTabsAppend | src/internal/string_function.go:136 | the expansion distributes over concatenation, so it replaces each tab where it stands |
| Lines.TrimTrailingNewlines | src/internal/string_function.go:141 | the result is the longest prefix that does not end in a newline; everything removed is newlines |
| Lines.CheckAndTruncateLineLengths | src/internal/string_function.go:130-144 | the builder loop computes `ClampLines`, and the result does not end in a newline |
| Lines.TrimTerminated | src/internal/string_function.go:138-141 | trimming the newline-terminated lines gives the lines joined, without their trailing empty lines |
| Lines.ClampLinesShape | src/internal/string_function.go:130-144 | the result is the clamped lines joined by newlines, trailing empty ones dropped; it holds no tab; splitting it gives back those lines |
| Lines.ClampLinesLines | src/internal/string_function.go:134-139 | each output line is the library's cut of the tab-expanded input line at the same position: a prefix of it within the width |
| Lines.ClampLinesNoTrailingNewline | src/internal/string_function.go:141-143 | the result never ends with a newline |
| Lines.ClampLinesEmpty | src/internal/string_function.go:130-144 | the empty text gives the empty text |
| Lines.ClampLinesOfClamped | src/internal/string_function.go:130-144 | newline-joined lines that have no tab, fit the width and do not end in an empty line come back unchanged |
| Lines.ClampLinesIdempotent | src/internal/string_function.go:130-144 | clamping a clamped text changes nothing |
| Printable.PrintableByteRanges | src/internal/string_function.go:150 | IsPrint or IsSpace on a byte accepts exactly 0x09-0x0D, 0x20-0x7E, 0x85, and 0xA0-0xFF except 0xAD |
| Printable.LayoutByteRanges | src/internal/string_function.go:203 | IsGraphic, tab or newline on a byte accepts exactly 0x09, 0x0A, 0x20-0x7E, and 0xA0-0xFF except 0xAD |
| Printable.LatinOneClassFacts | src/internal/string_function.go:192-203 | NBSP is a space and graphic but not printable; NEL is a space only; the soft hyphen is in no class; vertical tab, form feed and carriage return are spaces but not graphic |
| Printable.LayoutWithinPrintable | src/internal/string_function.go:150-203 | every byte makePrintable keeps passes isBufferPrintable; the bytes it accepts but makePrintable drops are exactly 0x0B-0x0D and 0x85 |
| Printable.IsBufferPrintable | src/internal/string_function.go:147-155 | true exactly when every byte is printable or space |
| Printable.AllPrintableExamples | src/internal/string_function.go:147-155 | the empty buffer passes, any buffer holding 0x00 fails, printable ASCII with tab, newline and carriage return passes |
| Printable.AllPrintableAppend | src/internal/string_function.go:148-154 | a buffer passes exactly when both of its parts pass |
| Printable.KeepLayout | src/internal/string_function.go:196-208 | the output is no longer than the input and holds only layout bytes |
| Printable.MakePrintable | src/internal/string_function.go:196-208 | the byte loop computes `KeepLayout` |
| Printable.LayoutPositions | src/internal/string_function.go:201-206 | the qualifying positions of the line, strictly increasing, all of them |
| Printable.KeepLayoutSelects | src/internal/string_function.go:201-206 | the k-th output byte is the input byte at the k-th qualifying position: the output is exactly the qualifying subsequence, in order |
| Printable.KeepLayoutCounts | src/internal/string_function.go:201-206 | each layout byte occurs in the output as often as in the input |
| Printable.KeepLayoutIdentity | src/internal/string_function.go:201-206 | a line made only of layout bytes comes back unchanged |
| Printable.KeepLayoutIdempotent | src/internal/string_function.go:196-208 | applying makePrintable twice is applying it once |
| Printable.KeepLayoutIsPrintable | src/internal/string_function.go:147-155 | the output of makePrintable passes isBufferPrintable |
| Printable.KeepLayoutSnoc | src/internal/string_function.go:201-206 | appending one byte to the line appends it to the output exactly when it qualifies |
| Printable.KeepLayoutKeepsTabAndNewline | src/internal/string_function.go:192-208 | the bell 0x07 is removed; every tab and newline is kept |
| Printable.KeepLayoutExample | src/internal/string_function.go:196-208 | tab, bell, newline gives tab, newline |

## Left out

- `formatFileSize`: it uses floating-point logarithms and powers, `%.2f` formatting and a global configuration flag.
- `isTextFile`: it opens and reads a file. Only its call to `isBufferPrintable` on the bytes read is modelled.
- `prettierName`, `prettierDirectoryPreviewName` and `clipboardPrettierName`: these do icon lookup and terminal styling.
- `ansi.StringWidth` and `ansi.Truncate`: escape sequences and East-Asian widths are not modelled. Only the laws in `Ansi.Lawful` are used, and nothing is assumed about `Truncate` at a negative length.
- `Ansi.Lawful`: its prefix law is meant for text without escape sequences. On styled text the library's cut may keep escape sequences that come after the cut, and then it is not a prefix. That behaviour is not captured.
- Invalid UTF-8 is not modelled, because strings are rune sequences. Go's `[]rune` conversion would turn each bad byte into U+FFFD.
- `makePrintable` takes a Go string but loops over its bytes. It is modelled on `seq<byte>`.
- `FileName.LowerRune`: keeps every non-ASCII rune other than U+0130 and U+212A. `strings.ToLower` lowers more of them, for example U+00C9 to U+00E9. The lower-case forms of those runes are not ASCII, so none of them can match a listed extension. The verdict of `isExensionExtractable` is therefore the same, but the lowered string itself is not modelled. The two runes whose lower-case forms are ASCII are both modelled. U+0130 lowers to "i", so ".ZİP" and ".İSO" are accepted. U+212A (Kelvin sign) lowers to "k", which occurs in none of the nine extensions.
- `Truncate.TruncateTextFits`: bounds the width only for an ASCII marker and a budget `maxChars - len(talis)` of at least 0. For a negative budget nothing is assumed about the library, and the laws give no width bound for a non-ASCII marker.
- `Truncate.TruncateStartCut`: does not bound the width of the result after the marker overlay, because there is no such bound. The marker takes the place of the first `len(talis)` runes of the suffix, and those runes may take no cell, so the result can be wider than `maxChars` even for a lawful library (`Truncate.TruncateStartExceedsBudget`, and the second row under "## Findings").
- The other files of `src/internal` (data loading, configuration, process attributes, global aliases) are I/O or state and are not part of this model.

## Findings

| source | as written | input that shows it | evidently intended | confidence | as-written member | corrected member |
|---|---|---|---|---|---|---|
| src/internal/string_function.go:57 | `text[:h]` and `text[n-h:]` slice bytes, but `n` is the rune count and `h` is derived from it | `"ééééé"` (five U+00E9, ten bytes), `maxChars` 4, `talis` `"..."`: `h` is 0 and `text[5:]` starts inside the third rune, giving the bytes 2E 2E 2E A9 C3 A9 C3 A9, which are not valid UTF-8 | keep `h` runes at each end, which gives `"..."` here | not executed | Truncate.TruncateMiddleTextAsWrittenSplitsRune | Truncate.TruncateMiddleTextCut |
| src/internal/string_function.go:43-44 | the marker replaces the first `len(talis)` runes of the suffix that fits, whatever their width | `"x"`, three U+0301 (combining acute accent, no cell), `"ab"`, with `maxChars` 2 and `talis` `"..."`: the loop keeps the accents and `"ab"` (2 cells), and the overlay returns `"...ab"`, 5 cells. With escape sequences the same overlay can cut a sequence apart, e.g. `"xyz\x1b[31mabcde"` with budget 5 (not modelled) | a result within `maxChars` cells: the marker in front of the longest suffix that fits `maxChars - len(talis)`, which gives the accents and `"ab"` here, since the marker leaves no room | not executed | Truncate.TruncateStartExceedsBudget | Truncate.TruncateStartFittedFits |
