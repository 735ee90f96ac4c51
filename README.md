# Table Sniffer core, modelled in Dafny

This project models the logic core of a browser extension. The extension finds the HTML tables on a page,
tries to push a page-size control to its largest setting or to "all", and exports a table's cell grid as
CSV (a download) or TSV (a copy). Only the statable logic is modelled:

- **CSV/TSV encoder** (`util.js`): `escapeCsvCell` and `encodeCsv`, as pure functions over strings
  (module `CsvCodec`, file `csv_codec.dfy`). The module proves the following:
  - normalised text holds no carriage return;
  - a cell is quoted if and only if it needs quoting;
  - quotes are doubled, and escaping can be undone;
  - the shapes of a row and of a grid;
  - the literal test vector of `test/run.js`.

  A reference reader (module `CsvDecode`, file `csv_decode.dfy`) states what the encoding preserves:
  reading an encoded grid back yields every cell's normalised text, in place.
- **Table scanner and grid extraction** (`contentScript.js`), in module `Scanner` (file `scanner.dfy`):
  - a `TableSniffer` class holds the scanner's module-level state (`detectedTables`, `highlightEl`);
  - its methods are `DetectTables`, `GetTableData` and `HighlightTable`;
  - a `TableElement` class stands for a `<table>`: rendered size, `th`/`td` count, trimmed cell texts and
    the outline style it carries.
- **Page-size negotiation** (`contentScript.js`), in module `PageSize` (file `page_size.dfy`):
  - the option ranking "first 'all' wins, otherwise the first greatest number";
  - the early-break select loop and the no-break listbox loop, each proved equal to one reference
    ranking `BestOf`;
  - the choice across `<select>` elements, and the combobox fallback;
  - `adjustPageSize`'s decision between leaving the select as it is and setting it and notifying.
- **Popup logic** (`popup.js`), in module `Popup` (file `popup.dfy`):
  - the options merge;
  - the five-row preview;
  - the export choice (CSV download with the configured delimiter, TSV copy);
  - the per-domain auto-download toggle, with the button face it shows.
- **Pagination readout parser** (`test/test-quasar.js`), in module `QuasarPagination`
  (file `quasar_pagination.dfy`):
  - the first `<digits>-<digits> of <digits>` match;
  - its completeness test;
  - the readouts the tests use.
- **Helpers inside `test/test-auto-download.js`**, in module `AutoDownloadChecks`
  (file `auto_download_checks.dfy`):
  - the stability monitor (threshold 3, fallback count 15), run by a do-while loop;
  - the test's own falsy-dropping cell escaper, related to the real encoder;
  - the "all" element finder.

Shared pieces live in `wrappers.dfy` (`Option`) and `text.dfy`. The latter holds substring search as
`includes`, ASCII lower-casing, the `/all/i` test, and digit stripping with decimal parsing.

Representation choices:
- JavaScript's `-1` / number / `Infinity` option values become the datatype `Rank = NoRank | Num(n) | All`.
- `null`/`undefined` results become `Option`.
- Rendered text (`innerText.trim()`, `textContent.trim()`) and rendered sizes are given inputs.
- A cell value is a small datatype (`Undefined`, `Null`, string, integer, boolean), so `String(cell ?? '')`
  and the test's `String(cell || '')` can both be stated.

Notes on the code as written:
- The auto-download domains are kept as a list: `push` appends, and `filter` removes every copy.
  `Popup.ToggleKeepsDistinct` shows that a list without duplicates keeps none.
- `contentScript.js` has no handler for the `autoDownload` message that `popup.js` sends.
- The stability counter and the pagination readout parser exist only as helpers in the tests.
  They are modelled as written there.
- In the combobox path the winning option is clicked only when the combobox's current text differs from
  it (`contentScript.js:189-191`).
- `showPreview` calls `data.slice` on whatever arrives, so a stale id throws instead of yielding an empty
  result. The model renders nothing in that case.
- The per-table download button (`handleDownload`, `contentScript.js:196-203`) calls `encodeCsv(data)` with the default delimiter `,` and line ending LF, so it ignores the delimiter and line ending chosen in the popup.
- The escaping example is the three-row grid of `test/test-auto-download.js:23-27`.

## Model

| member | source | states |
|---|---|---|
| Text.ContainsIffOccurs | util.js:3 | `includes` holds exactly when the needle occurs at some position |
| Text.ContainsChar | util.js:3 | searching for a one-character string is membership of that character |
| Text.ContainsEmpty | util.js:3 | every string includes the empty string |
| Text.MentionsAllAt | contentScript.js:85 | the case-insensitive `/all/i` test holds exactly when `a`,`l`,`l` (either case) occur consecutively somewhere |
| Text.MentionsAllLower | test/test-auto-download.js:13-15 | the `/all/i` test and lower-casing then searching for "all" accept exactly the same texts |
| Text.AllAtLower | test/test-auto-download.js:14 | matching `all` case-insensitively at a position is the same as finding `all` there in the lower-cased text |
| Text.LowerAsciiSpec | test/test-auto-download.js:14 | no upper-case ASCII letter remains; each upper-case letter becomes its lower-case partner and every other character is kept; lower-casing twice is lower-casing once |
| Text.DigitsOf | contentScript.js:90 | stripping non-digits leaves only digits and never lengthens the text |
| Text.DigitsOfEmpty | contentScript.js:90 | stripping leaves nothing exactly when the text has no digit, the case where `parseInt` gives NaN |
| Text.DigitsOfDigits | contentScript.js:90 | stripping a string of digits leaves it unchanged |
| Text.DigitsOfAppend | contentScript.js:90 | stripping distributes over concatenation, so every digit of the text is kept, in order |
| Text.ThousandsSeparatorIgnored | contentScript.js:90 | the grouped text "1,000" is read as 1000, one number made of all its digits |
| Text.DecimalRoundTrip | contentScript.js:90 | reading back the decimal spelling of any natural number gives that number |
| CsvCodec.NormalizedHasNoCr | util.js:2 | after newline normalisation a cell contains no carriage return |
| CsvCodec.NormalizeWithoutCr | util.js:2 | a cell without carriage returns is left unchanged by normalisation |
| CsvCodec.NormalizeIsOnePass | util.js:2 | the two replacements in sequence equal one left-to-right pass mapping CRLF and lone CR to LF |
| CsvCodec.DoubleQuotesSpec | util.js:4 | doubling quotes yields quotes in pairs, halving them restores the cell, the quote count doubles and every other character count is kept |
| CsvCodec.DoubleQuotesAppend | util.js:4 | quote doubling distributes over concatenation |
| CsvCodec.DoubleQuotesWithoutQuote | util.js:4 | a cell without quotes is not changed by doubling |
| CsvCodec.EscapeQuotesIff | util.js:2-5 | the output is wrapped in quotes iff the normalised cell contains a quote, the delimiter or a newline; unwrapped output is the normalised cell and contains none of them; wrapped output is the doubled cell in quotes |
| CsvCodec.EmptyDelimiterAlwaysQuotes | util.js:3 | with an empty delimiter every cell is quoted |
| CsvCodec.UnescapeEscape | util.js:2-5 | removing the outer quotes and halving `""` gives back the normalised cell |
| CsvCodec.JoinSnoc | util.js:11 | joining one more part appends the separator and that part |
| CsvCodec.EncodeCsvShape | util.js:8-11 | an empty grid encodes to the empty string; one row encodes to that row alone; more rows add the line ending between rows and none at the end |
| CsvCodec.EncodeRowShape | util.js:10 | an empty row encodes to the empty string; one cell is its escape; more cells are joined by the delimiter |
| CsvCodec.EmptyEncodingsCollide | util.js:8-11 | the empty grid, a grid with one empty row and a grid with one empty cell all encode to the empty string (for a non-empty delimiter) |
| CsvCodec.NullishCellsEncodeEmpty | util.js:10 | `null` and `undefined` cells encode as the empty string |
| CsvCodec.FalsyValuesKeepText | util.js:10 | `0` and `false` are not dropped by `??`: they encode as `0` and `false` |
| CsvCodec.EscapePlainText | util.js:3-5 | a cell with no quote, newline or delimiter is output verbatim |
| CsvCodec.EscapeWrappedText | util.js:3-5 | a quote-free cell containing the delimiter or a newline is wrapped in quotes unchanged |
| CsvCodec.EscapeEmbeddedQuote | util.js:4-5 | a cell with one embedded quote is wrapped and that quote doubled |
| CsvCodec.EncodeTwoRows | util.js:11 | two rows are joined by the line ending |
| CsvCodec.EncodeThreeCells | util.js:10 | three cells are joined by the delimiter |
| CsvCodec.EncodeSampleShape | test/run.js:4-6 | the shape of the test grid: plain, comma-bearing and quote-bearing cells encode as plain, wrapped and doubled-then-wrapped |
| CsvCodec.EncodeCsvSample | test/run.js:4-6 | `encodeCsv([["a","b,c",'d"e'],["1","2","3"]])` equals `a,"b,c","d""e"` LF `1,2,3` |
| CsvDecode.QuotedRoundTrip | util.js:4-5 | a quoted field of doubled quotes reads back as the cell, leaving the rest of the text |
| CsvDecode.UnquotedRoundTrip | util.js:3-5 | an unquoted field reads back as the cell up to the next delimiter or line ending |
| CsvDecode.FieldRoundTrip | util.js:1-6 | every escaped cell reads back as its normalised text |
| CsvDecode.RowRoundTrip | util.js:10 | a non-empty encoded row reads back as the normalised texts of its cells |
| CsvDecode.DecodeEncode | util.js:8-11 | for a delimiter other than `"`, LF and CR and a line ending that starts with LF or CR, reading back a non-empty encoded grid of non-empty rows gives every cell's normalised text, in place |
| PageSize.BelowIsStrictTotalOrder | contentScript.js:91 | the rank order (no number < numbers by value < all) is irreflexive, transitive and total |
| PageSize.FirstMaximumUnique | contentScript.js:83-95 | there is at most one first maximum |
| PageSize.BestOfIsFirstMaximum | contentScript.js:83-95 | the reference ranking picks nothing iff no option has a rank, else the first option of greatest rank |
| PageSize.FirstAllWins | contentScript.js:85-88 | the first option ranked "all" is the pick |
| PageSize.BestOfPrefix | contentScript.js:91-94 | one loop step replaces the kept option only on a strictly greater rank |
| PageSize.SelectBestOption | contentScript.js:80-95 | the early-break option loop keeps the reference ranking's pick and its rank |
| PageSize.ListboxBestOption | contentScript.js:131-147 | the no-break listbox loop keeps the reference ranking's pick and its rank |
| PageSize.BothLoopsAgree | contentScript.js:83-95 | the select loop and the listbox loop pick the same option from the same texts |
| PageSize.NoWinnerIff | contentScript.js:133-147 | no option wins iff no text mentions "all" and none holds a digit; a winner always has a rank |
| PageSize.FirstAllOptionWins | contentScript.js:137-138 | the first text mentioning "all" wins |
| PageSize.GreatestNumberWins | contentScript.js:140-145 | without "all", the winner holds the greatest number and earlier texts hold strictly smaller ones |
| PageSize.PageSizeTargetNone | contentScript.js:96-100 | no select is chosen iff no select has a winning option |
| PageSize.PageSizeTargetSpec | contentScript.js:96-100 | the chosen select is the first of greatest winning rank, and its option is that select's own winning option |
| PageSize.AllSelectBeatsNumeric | contentScript.js:96 | a select offering "all" beats a numeric one in either order |
| PageSize.FirstAll | contentScript.js:85-88 | where some rank is "all" there is a first such rank |
| PageSize.FindPageSizeSelect | contentScript.js:77-101 | the loop over selects returns the reference choice of select, option and rank |
| PageSize.ComboTargetFrom | contentScript.js:126-152 | a found combobox lies at or after the start and has a winning option |
| PageSize.ComboTargetFromSpec | contentScript.js:126-152 | no combobox between the start and the one found has a winning option; nothing is found iff no combobox from the start on has a winning option |
| PageSize.FindComboBoxPageSize | contentScript.js:124-153 | the first combobox whose listbox has a winning option is returned with that option, none earlier has one; null means no combobox's listbox has a winning option |
| PageSize.FirstWithValue | contentScript.js:181 | assigning `select.value` selects the first option with that value, or none |
| PageSize.AdjustPageSize | contentScript.js:176-194 | with no qualifying select the combobox decision is returned and nothing changes; if the selected text equals the best option's text nothing changes; otherwise only the chosen select changes: it selects the best option's value and records an input then a change event |
| Scanner.Listed | contentScript.js:39-43 | the listing is never longer than the document's tables |
| Scanner.ListedAppend | contentScript.js:39-45 | the listing of two parts is the two listings in order, so document order is kept |
| Scanner.ListedMembership | contentScript.js:40-45 | a table is listed iff it is in the document, visible or hidden tables are requested, and it has at least 2 cells |
| Scanner.ShowHiddenOnlyAdds | contentScript.js:40 | requesting hidden tables never drops a table |
| Scanner.AllRenderedSameListing | contentScript.js:40 | when every table has a rendered size, the hidden flag changes nothing |
| Scanner.PreviewRow | contentScript.js:51-54 | a preview row has exactly `cols` entries |
| Scanner.Preview | contentScript.js:48-56 | the preview has `min(2, rows)` rows |
| Scanner.PreviewCutsOrPads | contentScript.js:47-56 | each preview row is its table row cut or padded with empty strings to the first row's width; the first preview row is the first row |
| Scanner.RectangularPreview | contentScript.js:48-56 | a rectangular table's preview is its first two rows |
| Scanner.BuildPreview | contentScript.js:48-56 | the nested loops build the preview |
| Scanner.ExtractGrid | contentScript.js:66-74 | the nested loops return every row's cell texts in order, shaped like the table |
| Scanner.GetTableDataByElement | contentScript.js:64-75 | a missing table gives null, otherwise the table's full grid |
| Scanner.TableSniffer.DetectTables | contentScript.js:34-62 | the tracked list is replaced by the listed tables in document order; summary `i` has id `i` and describes the `i`-th listed table |
| Scanner.TableSniffer.GetTableData | contentScript.js:225-237 | null iff the id does not index the tracked list, otherwise that table's full grid |
| Scanner.TableSniffer.HighlightTable | contentScript.js:239-246 | the old highlight's outline is cleared; a resolving id outlines that table in orange and records it, otherwise the old reference is kept; no other tracked table changes |
| Popup.MergeOptionsCompose | popup.js:11-12 | two loads in a row equal one load of the later answers laid over the earlier ones, so the last stored value of each key decides it |
| Popup.MergeOptionsLaws | popup.js:3-12 | an empty store changes nothing, merging twice equals merging once, a full store decides every key |
| Popup.PreviewRows | popup.js:55 | the preview is a prefix of the grid of length `min(5, rows)` |
| Popup.ShortGridPreviewedWhole | popup.js:55 | a grid of at most 5 rows is previewed whole |
| Popup.StrGrid | popup.js:105-107 | the grid handed to the encoder keeps the data's shape |
| Popup.PopupState.LoadOptions | popup.js:9-16 | the options become the stored values merged over the current ones; nothing else changes |
| Popup.PopupState.ShowPreview | popup.js:50-67 | the table becomes the current one; the first five rows are rendered when data arrives, nothing otherwise |
| Popup.PopupState.ExportTable | popup.js:103-115 | no export iff no table is selected; a CSV export downloads the grid encoded with the configured delimiter and line ending under a dated name; a TSV export copies it encoded with a tab |
| Popup.StrGridNormalized | popup.js:107 | a text grid without carriage returns is its own normalised text |
| Popup.DownloadedGridReadsBack | popup.js:106-109 | the downloaded CSV reads back as the grid |
| Popup.CopiedGridReadsBack | popup.js:111-112 | the copied TSV reads back as the grid |
| Popup.RemoveAll | popup.js:127 | filtering never lengthens the list |
| Popup.RemoveAllSpec | popup.js:127 | filtering removes every copy of the domain and keeps every other domain's count |
| Popup.RemoveAllAppend | popup.js:127 | filtering distributes over concatenation, so the relative order is kept |
| Popup.RemoveAllIdempotent | popup.js:127 | filtering twice equals filtering once |
| Popup.ToggleSpec | popup.js:125-131 | after a toggle the domain is present iff it was absent; an absent domain is appended; other domains keep their counts |
| Popup.ToggleAbsentTwice | popup.js:127-131 | toggling an absent domain twice restores the list exactly |
| Popup.TogglePresentTwice | popup.js:127-131 | toggling a present domain twice leaves one copy, at the end |
| Popup.ToggleKeepsDistinct | popup.js:125-131 | a list without duplicates stays without duplicates |
| Popup.ToggleAutoDownloadForCurrentDomain | popup.js:118-140 | the saved list is the toggled list (an unset list counts as empty); the reported state is membership in the saved list and is the opposite of the previous one |
| Popup.ButtonFaceShowsState | popup.js:142-148 | the two states show different captions and different colours, and the caption starts with "Disable" exactly in the enabled state |
| Popup.ToggleSwapsButton | popup.js:125-146 | after a toggle the button shows the face of the opposite state |
| QuasarPagination.DigitRunEnd | test/test-quasar.js:14 | a greedy `\d+` ends at the first non-digit |
| QuasarPagination.DigitRunEndOf | test/test-quasar.js:14 | a digit run followed by a non-digit ends exactly there |
| QuasarPagination.FirstMatch | test/test-quasar.js:14 | a found match is a match, at or after the start |
| QuasarPagination.FirstMatchIsLeftmost | test/test-quasar.js:14 | nothing found iff no position matches; otherwise no earlier position matches |
| QuasarPagination.ParseQuasarPagination | test/test-quasar.js:13-24 | null iff no `<digits>-<digits> of <digits>` occurs; otherwise the three numbers of the leftmost match, complete iff showing >= total |
| QuasarPagination.MatchAtStart | test/test-quasar.js:14 | a readout at the start of the text matches with its three numbers |
| QuasarPagination.ParseReadout | test/test-quasar.js:14-20 | any readout `a-b of c` followed by a non-digit parses to a, b, c, complete iff b >= c |
| QuasarPagination.NoDigitsNoReadout | test/test-quasar.js:23 | a text without digits parses to null |
| QuasarPagination.FirstFooter | test/test-quasar.js:27-30 | `1-10 of 2701` shows 10 of 2701 and is incomplete |
| QuasarPagination.FullFooter | test/test-quasar.js:32-35 | `1-2701 of 2701` is complete |
| QuasarPagination.HundredFooter | test/test-quasar.js:93-101 | `1-100 of 100` is complete |
| AutoDownloadChecks.Observed | test/test-auto-download.js:55 | an observed count is never 0, and it is the reported count whenever a non-zero count is reported |
| AutoDownloadChecks.StableCountIsRun | test/test-auto-download.js:57-64 | after n checks the stable count is the number of checks just before the last one that observed the same count as the last one |
| AutoDownloadChecks.CompleteIffFourEqual | test/test-auto-download.js:57-65 | a check reports complete iff it and the three checks before it observed the same count |
| AutoDownloadChecks.MonitorTable | test/test-auto-download.js:68-72 | the do-while loop stops at the first complete check, or incomplete after length + 3 checks |
| AutoDownloadChecks.StopsAtFirstComplete | test/test-auto-download.js:68-72 | when some check within the bound completes, the do-while loop stops exactly at the first complete check |
| AutoDownloadChecks.LoadingThenStable | test/test-auto-download.js:48-65 | for `[5,10,15,15,15]` checks 1 to 5 are incomplete and check 6 is complete with count 15 |
| AutoDownloadChecks.TestTableMonitoring | test/test-auto-download.js:47-76 | the test's monitoring completes with a final count of 15 |
| AutoDownloadChecks.NoCountsNeverComplete | test/test-auto-download.js:55-72 | with no counts the loop's three checks all report incomplete |
| AutoDownloadChecks.LocalEscaperDiffersOnlyOnZeroAndFalse | test/test-auto-download.js:29-34 | the test's escaper agrees with the real one except that it drops `0` and `false` |
| AutoDownloadChecks.LocalEncodeAgrees | test/test-auto-download.js:36-38 | without `0` or `false` cells, the test's encoding equals `encodeCsv` with defaults |
| AutoDownloadChecks.EscapeTwoQuotes | test/test-auto-download.js:32-33 | a cell with two embedded quotes is wrapped with both doubled |
| AutoDownloadChecks.EncodeThreeRows | test/test-auto-download.js:38 | three rows are joined by LF |
| AutoDownloadChecks.EscapingSampleShape | test/test-auto-download.js:23-38 | the shape of the test grid's encoding from plain pieces |
| AutoDownloadChecks.TextGridAgrees | test/test-auto-download.js:36-38 | on a text grid of three rows of three cells the test's encoding equals `encodeCsv` |
| AutoDownloadChecks.EscapingSample | test/test-auto-download.js:22-42 | the quote, comma and newline grid encodes to the expected text |
| AutoDownloadChecks.FindShowAll | test/test-auto-download.js:13-15 | nothing found iff no element has a text mentioning `all`; otherwise the first such element |
| AutoDownloadChecks.ShowAllFound | test/test-auto-download.js:6-17 | among the mock elements, "Show All" is found |

## Left out

- `waitForElement`, `waitForTableUpdate` and the debounced rescan observer (`contentScript.js:103-122`, `:155-174`, `:258-266`): timer and mutation-observer concurrency. `AdjustPageSize` returns where the source would start waiting.
- The click and `await` sequence that opens each combobox (`contentScript.js:125-130`). Each combobox is given as its current text and the option texts of its listbox, if one appeared.
- `ensureStyle`, `addButtons` and the injection guard (`contentScript.js:1-32`, `:205-223`): DOM and CSS decoration.
- `handleDownload` (`contentScript.js:196-203`), the path of the per-table button: page-side glue that runs `adjustPageSize`, then `getTableDataByElement`, then `encodeCsv` with its defaults, and hands the text to the download primitive. Each step is modelled on its own.
- Message dispatch between popup and page (`contentScript.js:248-256`, `popup.js:18-28`), `requestTables`, `populateList`, the popup's DOM rendering and the `console.log` calls of the toggle (`popup.js:128`, `:132`): messaging and UI glue. The data a message returns is a parameter.
- `triggerAutoDownload` (`popup.js:82-101`): it sends a message that no handler in `contentScript.js` answers.
- `downloadCsv`, `copyText`, `background.js` and `options.js`: the file, clipboard and storage primitives. `ExportTable` returns the download or copy it would hand over.
- `dataset.tableSnifferId` tagging (`contentScript.js:44`): the shown code never reads it.
- `CSS.escape`, `innerText`/`textContent` trimming, `offsetWidth`/`offsetHeight`, `new URL(...).hostname` and `new Date().toISOString()`: foreign calls. Their results are inputs.
- The selector and button-HTML string checks of `test/test-quasar.js:41-85`: assertions over mock strings.
- QuasarPagination.ParseQuasarPagination: the three numbers are unbounded naturals. `parseInt` at `test/test-quasar.js:17-20` rounds above 2^53, which can change `isComplete`: "1-9007199254740992 of 9007199254740993" is complete in JavaScript, where both numbers read as 2^53, but incomplete in the model.
- RankOf: a digit string is read as an unbounded natural. `parseInt` loses precision beyond 2^53 and gives `Infinity` for very long digit strings; floats are not modelled.
- CsvCodec.JsString: numeric cells are integers. Fractional numbers, `NaN`, `Infinity` and `-0` are not modelled.
- Text.LowerAscii: only ASCII letters are folded. `toLowerCase` and the `i` flag also fold other scripts; no folding of a non-ASCII character is modelled.
- CsvDecode.DecodeEncode: the reader takes a one-character delimiter and needs every row non-empty. `CsvCodec.EmptyEncodingsCollide` shows that empty rows and empty grids cannot be told apart. The delimiter must not be `"`, LF or CR, and the line ending must start with LF or CR. `util.js:3` quotes a cell only when it holds a quote, the delimiter or LF, so with any other line ending an unquoted cell could contain the line ending and the output would itself be ambiguous.
- Popup.PopupState.ShowPreview: when no data arrives the source throws on `data.slice`. The model renders nothing.
- Popup.PopupState.ExportTable: `type === 'csv'` versus anything else is modelled as the two-valued `ExportKind`. When no data arrives the source throws inside `encodeCsv`; the model reports `Failed`.
- Scanner.TableSniffer.HighlightTable: only the `outline` style is modelled, as a string field.
