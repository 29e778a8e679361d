# OCR text-to-grid tokenizer

The OCR upload handler of this repository turns the text that the OCR engine
recognized in an image into a grid of rows and cells, and hands that grid to a
spreadsheet writer. The grid is computed in one expression:

- the text is split on `'\n'` into lines;
- every line is trimmed;
- the lines left empty are dropped;
- every remaining line is split into cells on the regular expression `/\s{2,}|\t+/`.

This project models that expression and the JavaScript primitives it relies on.
It then proves what the grid is for every input text.

- `js_strings.dfy` (module `JsStrings`) models the JavaScript primitives.
  - The whitespace class is shared by `\s` and `String.prototype.trim`: ECMAScript WhiteSpace plus LineTerminator.
  - `Trim` is the slice between the first and last non-whitespace characters; `TrimWithin` and `TrimPadded` prove that this slice is what ECMAScript's TrimString returns: the string with its leading and trailing whitespace removed.
  - `split` with a one-character separator is modelled together with its inverse, `JoinOn`.
- `cell_split.dfy` (module `CellSplit`) models `line.split(/\s{2,}|\t+/)`.
  - `MatchAt` is the sticky match of the pattern at one position. The alternatives are tried left to right and the quantifiers are greedy.
  - `SplitFrom` is the loop of ECMAScript's RegExp.prototype[@@split].
  - `Splits` is a declarative reading of the result: cells and delimiters that interleave to the line. The split is proved to produce exactly that decomposition, and the decomposition is unique.
- `tokenizer.dfy` (module `Tokenizer`) composes the four steps into `Tokenize`. It proves row count, row order, cell shape and empty-grid results, and that a text's lines are tokenized independently.
- `tokenizer_examples.dfy` (module `TokenizerExamples`) proves concrete instances: a run of spaces, a single space and a tab between words, and a text with a blank line and a final newline.

Two points where the intent and the code differ. The model follows the code in both:

- **Which whitespace makes a delimiter.** The comment at src/pages/api/ocr.ts:37 speaks of two or more *spaces*, or tabs. The pattern's `\s{2,}` accepts any two or more whitespace characters in a row: spaces, tabs, no-break spaces, `'\r'`, and so on. `IsDelimiter` and `MatchAt` state the code's rule.
- **Line breaks.** The text is split on `'\n'` alone. A `'\r'` before the `'\n'` is whitespace, so `trim` removes it from the line's end.

## Model

| member | source | states |
|---|---|---|
| JsStrings.IsWs | src/pages/api/ocr.ts:35-37 | no contract: the whitespace class shared by `\s` and `trim` (ECMAScript WhiteSpace plus LineTerminator); VisibleNotWs, WsRunEnd and SkipWsBack state what follows from it |
| JsStrings.VisibleNotWs | src/pages/api/ocr.ts:35-37 | visible ASCII characters (letters, digits, punctuation) are not in the whitespace class of `\s` and `trim` |
| JsStrings.WsRunEnd | src/pages/api/ocr.ts:35-37 | the end of the maximal whitespace run from a position: everything up to it is whitespace and the character at it is not; `trim` scans forward to it, and the greedy `\s{2,}` matches up to it |
| JsStrings.SkipWsBack | src/pages/api/ocr.ts:35 | the scan of `trim` from the end stops just after the last non-whitespace character; everything after it is whitespace |
| JsStrings.Trim | src/pages/api/ocr.ts:35 | `row.trim()` has no whitespace at either end, and it is empty exactly when the line is all whitespace |
| JsStrings.TrimWithin | src/pages/api/ocr.ts:35 | the trimmed line is a slice of the line, with an all-whitespace prefix before it and an all-whitespace suffix after it |
| JsStrings.TrimPadded | src/pages/api/ocr.ts:35 | trim removes exactly the padding: whitespace + t + whitespace trims to t for every already-trimmed t |
| JsStrings.TrimTrimmed | src/pages/api/ocr.ts:35 | trim leaves an already-trimmed string unchanged |
| JsStrings.TrimIdempotent | src/pages/api/ocr.ts:35 | trimming twice is trimming once |
| JsStrings.SplitOn | src/pages/api/ocr.ts:34 | `text.split('\n')` gives one more piece than there are `'\n'`s; no piece contains `'\n'`; joining the pieces with `'\n'` rebuilds the text |
| JsStrings.JoinOn | src/pages/api/ocr.ts:34 | no contract beyond needing one piece: the inverse of `split('\n')`; SplitOn's ensures and SplitOnJoinOn state that the two undo each other |
| JsStrings.SplitOnJoinOn | src/pages/api/ocr.ts:34 | split undoes join for pieces without `'\n'`, so the pieces of a text are unique |
| JsStrings.SplitOnWithout | src/pages/api/ocr.ts:34 | a text without `'\n'` is one line, itself |
| JsStrings.JoinOnAppend | src/pages/api/ocr.ts:34 | joining two lists of pieces equals joining each list and putting one `'\n'` between the results |
| JsStrings.SplitOnAppend | src/pages/api/ocr.ts:34 | splitting a + `'\n'` + b gives the lines of a followed by the lines of b |
| JsStrings.JoinOnAllWs | src/pages/api/ocr.ts:34-35 | a text is all whitespace exactly when each of its lines is |
| JsStrings.AllWsAppend | src/pages/api/ocr.ts:35 | a concatenation is all whitespace exactly when both parts are |
| CellSplit.TabRunEnd | src/pages/api/ocr.ts:37 | the greedy `\t+` ends at the end of the maximal tab run |
| JsStrings.WsRunEndExact | src/pages/api/ocr.ts:37 | any end of a whitespace stretch that cannot be extended is the run end |
| CellSplit.MatchAt | src/pages/api/ocr.ts:37 | the cell pattern matches at q exactly when two whitespace characters start at q or a tab is at q; a match is never empty, is at least two characters long unless it is a tab, and spans the whole whitespace run from q |
| CellSplit.MatchIsDelimiter | src/pages/api/ocr.ts:37 | every match is a delimiter: all whitespace, two or more characters long or a lone tab |
| CellSplit.SplitFrom | src/pages/api/ocr.ts:37 | only requires the cell start p to lie at or before the match position q, and q within the string: the cells of the @@split loop; SplitFromRebuilds, SplitFromCells and SplitFromInterleave state what it computes |
| CellSplit.DelimitersFrom | src/pages/api/ocr.ts:37 | the same requires as SplitFrom: the separators the @@split loop consumes; SplitFromRebuilds and SplitFromInterleave state what it computes |
| CellSplit.SplitFromRebuilds | src/pages/api/ocr.ts:37 | the split loop yields one more cell than separators; the separators are delimiters; the cells and separators interleaved rebuild the rest of the string |
| CellSplit.SplitCells | src/pages/api/ocr.ts:37 | no contract: `row.split` on the cell pattern; SplitCellsRebuilds, SplitCellsSound, SplitCellsUnique and SingleCell state what it computes |
| CellSplit.Delimiters | src/pages/api/ocr.ts:37 | no contract: the matches `split` cuts a line at; SplitCellsRebuilds and SplitCellsUnique state what they are |
| CellSplit.SplitCellsRebuilds | src/pages/api/ocr.ts:37 | for every string, `split` returns at least one cell; the cells interleaved with the matched separators rebuild the string; every separator is a delimiter |
| CellSplit.CellBetween | src/pages/api/ocr.ts:37 | a stretch with no match in it, bounded by non-whitespace characters, is a cell |
| CellSplit.SplitFromCells | src/pages/api/ocr.ts:37 | on a trimmed line, every cell the loop closes is a cell: non-empty, no whitespace at its ends, no tab, no two whitespace characters in a row |
| CellSplit.SplitCellsSound | src/pages/api/ocr.ts:37 | on a trimmed, non-empty line, `split` produces a declarative decomposition of the line (`Splits`) |
| CellSplit.SkipNoMatch | src/pages/api/ocr.ts:37 | positions where the pattern does not match do not change the loop's outcome |
| CellSplit.NoMatchInCell | src/pages/api/ocr.ts:37 | the pattern matches at no position inside a cell |
| CellSplit.DelimiterMatch | src/pages/api/ocr.ts:37 | a delimiter followed by a non-whitespace character is exactly the match at its position |
| CellSplit.SplitFromLast | src/pages/api/ocr.ts:37 | a last cell running to the end of the string comes out whole, with no separator |
| CellSplit.CutAt | src/pages/api/ocr.ts:37 | when the first match from a cell start is at q and ends at e, the loop closes the cell before q at that separator and restarts at e |
| CellSplit.SplitFromStep | src/pages/api/ocr.ts:37 | a first cell followed by a delimiter is cut off at that delimiter, and the loop restarts after it |
| CellSplit.SplitFromInterleave | src/pages/api/ocr.ts:37 | the loop run on any declarative decomposition finds exactly those cells and delimiters |
| CellSplit.SplitCellsUnique | src/pages/api/ocr.ts:37 | a line's declarative decomposition is unique, and it is the one `split` returns |
| CellSplit.SingleCell | src/pages/api/ocr.ts:37 | a trimmed line is split into just itself exactly when it has no tab and no two whitespace characters in a row (single spaces allowed) |
| CellSplit.VisibleCell | src/pages/api/ocr.ts:37 | a non-empty word of visible ASCII characters is a cell |
| Tokenizer.TrimAll | src/pages/api/ocr.ts:35 | no contract: `.map((row) => row.trim())`; TrimAllAppend, TokenizeRows and TokenizeEmpty state what it contributes |
| Tokenizer.DropEmpty | src/pages/api/ocr.ts:36 | `.filter(Boolean)` never lengthens the list, and every string it keeps is non-empty |
| Tokenizer.NonEmptyFrom | src/pages/api/ocr.ts:36 | the positions of the non-empty strings: increasing, each non-empty, none missed |
| Tokenizer.DropEmptySelects | src/pages/api/ocr.ts:36 | `.filter(Boolean)` keeps exactly the non-empty strings, in their order |
| Tokenizer.SplitAll | src/pages/api/ocr.ts:37 | no contract: `.map((row) => row.split(...))`; SplitAllAppend, TokenizeRows and TokenizeRowsSplit state what it contributes |
| Tokenizer.Tokenize | src/pages/api/ocr.ts:33-37 | no contract: the whole expression; TokenizeRows, TokenizeRowsSplit, TokenizeCells, TokenizeEmpty and TokenizeAppend state what it computes |
| Tokenizer.NonBlank | src/pages/api/ocr.ts:34-36 | the positions of the non-blank lines: increasing, each not all whitespace, none missed |
| Tokenizer.TokenizeRows | src/pages/api/ocr.ts:33-37 | there are exactly as many rows as non-blank lines, and row k is the split of the k-th non-blank line, trimmed, in line order |
| Tokenizer.TokenizeRowsSplit | src/pages/api/ocr.ts:33-37 | every row is the declarative decomposition of its trimmed line: cells and delimiters rebuild the line |
| Tokenizer.TokenizeCells | src/pages/api/ocr.ts:33-37 | no row is empty, and no cell is empty or has whitespace at an end, for every input text |
| Tokenizer.TokenizeEmpty | src/pages/api/ocr.ts:33-37 | the grid is empty exactly when the text is all whitespace, the empty text included |
| Tokenizer.DropEmptyAppend | src/pages/api/ocr.ts:36 | filtering a concatenation is filtering each part |
| Tokenizer.TrimAllAppend | src/pages/api/ocr.ts:35 | trimming every line of a concatenation is trimming every line of each part |
| Tokenizer.SplitAllAppend | src/pages/api/ocr.ts:37 | splitting every line of a concatenation is splitting every line of each part |
| Tokenizer.TokenizeAppend | src/pages/api/ocr.ts:33-37 | lines are tokenized independently: the grid of a + `'\n'` + b is the grid of a followed by the grid of b |
| Tokenizer.OneLine | src/pages/api/ocr.ts:33-37 | a trimmed, non-empty text without `'\n'` becomes one row: its split |
| Tokenizer.BlankLine | src/pages/api/ocr.ts:35-36 | a blank line adds no row |
| Tokenizer.TrailingNewline | src/pages/api/ocr.ts:34-36 | a final `'\n'` adds no row |
| TokenizerExamples.SplitSpacesExample | src/pages/api/ocr.ts:37 | `"Name    Age  City"` splits into `["Name", "Age", "City"]` |
| TokenizerExamples.SplitSingleSpaceExample | src/pages/api/ocr.ts:37 | `"John Smith"` stays one cell: a single space is no delimiter |
| TokenizerExamples.SplitTabExample | src/pages/api/ocr.ts:37 | `"Alice\t30"` splits into `["Alice", "30"]` |
| TokenizerExamples.TokenizeSpacesExample | src/pages/api/ocr.ts:33-37 | the text `"Name    Age  City"` gives the grid `[["Name", "Age", "City"]]` |
| TokenizerExamples.TokenizeSingleSpaceExample | src/pages/api/ocr.ts:33-37 | the text `"John Smith"` gives the grid `[["John Smith"]]` |
| TokenizerExamples.TokenizeTabExample | src/pages/api/ocr.ts:33-37 | the text `"Alice\t30"` gives the grid `[["Alice", "30"]]` |
| TokenizerExamples.TokenizeEmptyExample | src/pages/api/ocr.ts:33-37 | the empty text gives the empty grid |
| TokenizerExamples.ThreeLines | src/pages/api/ocr.ts:33-37 | a line, a blank line and a line, each ended by `'\n'`, give the rows of the two non-blank lines |
| TokenizerExamples.TokenizeLinesExample | src/pages/api/ocr.ts:33-37 | `"Name    Age  City\n \nAlice\t30\n"` gives `[["Name", "Age", "City"], ["Alice", "30"]]`: the blank line and the empty last line are dropped |

`Tokenize`, `TrimAll`, `SplitAll`, `SplitCells`, `Delimiters` and `IsWs` carry
no contract of their own, and `SplitFrom`, `DelimitersFrom` and `JoinOn` only a
precondition. The lemmas listed beside them state what they compute. The
tokenizer is total: `Tokenize`, `SplitOn`, `Trim`, `DropEmpty` and `SplitCells`
have no precondition, so every text has a grid and there is no failure path.
The helpers that do have one (`MatchAt`, `WsRunEnd`, `SkipWsBack`, `SplitFrom`,
`DelimitersFrom`, `JoinOn`) are only called with positions inside the string, or
with at least one piece. The tokenizer is deterministic because Dafny functions are.

## Left out

- The HTTP handling (src/pages/api/ocr.ts:1-27, 48-65) is not part of this model: the multer upload, the next-connect router, the 400 answer for a missing file, the 500 answers, the response headers and the logging. It is framework glue around the tokenizer.
- The OCR engine (src/pages/api/ocr.ts:28-30) is not part of this model. It is a foreign library; its output is the `text` parameter of `Tokenize`.
- The spreadsheet writer (src/pages/api/ocr.ts:39-46) is not part of this model. It is a foreign library that only receives the grid.
- src/pages/index.tsx, the upload page, is not part of this model. It is user interface with no bearing on the grid.
- JavaScript strings are sequences of UTF-16 code units; the model's strings are sequences of Unicode scalar values. Surrogate pairs are not modelled, and no whitespace character lies outside the Basic Multilingual Plane, so the two agree on every character that `\s` or `trim` can see.
- `IsWs` lists the space separators of current Unicode (category Zs). An engine built on an older Unicode version may differ on a character that has since moved in or out of Zs, such as U+180E.
- `split`'s optional `limit` argument is not modelled; the source does not pass one.
- SplitFrom leaves out @@split's test for a match ending where the current cell starts. That test matters only for patterns that can match the empty string, which `/\s{2,}|\t+/` cannot. `MatchAt` proves that every match ends past its start.
