# Forecast service core in Dafny

This project models the part of the inventory-forecasting backend that turns data into a prompt for the
language model, and the model's answer into a PDF table. It covers:

- **CSV normalisation** (`normalizeForecastCsv`). The model sometimes writes a forecast row one field
  per line. The normaliser rebuilds rows with a four-field heuristic: fragment lines (a date, an `SKU`
  code, an integer, a confidence word) are buffered with a comma, other short lines with a space, and
  lines with at least four comma-separated parts pass straight through.
- **Forecast-table planning** in `generateForecastPdf`:
  - a guard on the CSV, the clean-up of `\r`, blank and untrimmed lines, and header formatting;
  - a quote-aware cell split and the padding of short rows;
  - column widths from measured text, scaled down to fit the page, and column offsets;
  - row heights, per-cell alignment and colour, and pagination with a repeated header on each new
    page.
  The drawing itself is modelled as a sequence of draw operations (`TablePages.Op`).
- **Request validation** in `processInventoryForecast`: the empty-array check with its 400 answer,
  then per-item "missing fields" messages over the fifteen required fields. An item whose own
  `hasOwnProperty` key hides the method makes the check throw, and the `catch` answers 500.
- **Prompt building**: `formatCsvDataForPrompt`, the choice of user prompt in `processWithGroq`, and
  the system prompt (`generateSystemPrompt`) with its exact texts.
- **Answer parsing** (`parseGroqResponse`): the first `` ```csv `` block is taken out as the forecast
  CSV and the rest, trimmed, is the forecast text. The parsing lemmas are proved for any two fence
  strings, and `parseGroqResponse` is the instance with the code's fences.

Modules follow the source:

| module | file | what it models |
|---|---|---|
| `Js` | `js.dfy` | the JavaScript string operations the code relies on: `split` on one character, `join`, `trim`, ASCII case mapping, `indexOf`, decimal rendering |
| `Normalizer` | `normalizer.dfy` | `normalizeForecastCsv` |
| `TableParse` | `table_parse.dfy` | header labels, cell splitting and row padding |
| `TableLayout` | `layout.dfy` | column widths, fitting, row heights, alignment and colour |
| `TablePages` | `pages.dfy` | table drawing and pagination, and the whole "Forecast Data" section |
| `GroqHelper` | `groq.dfy` | `parseGroqResponse` and `generateSystemPrompt` |
| `ForecastController` | `controller.dfy` | the validation, `formatCsvDataForPrompt` and user-prompt selection |

Loops in the source are methods with loop invariants:
- the normaliser;
- the cell lexer and the padding loop;
- the column-width and row-height loops;
- the row-drawing loop;
- the validation loop.

Each method is proved equal to a specification function, and the properties are proved about that
function.

PDFKit's text measurement (`widthOfString` and `heightOfString`) is a parameter. Row heights take two
measures, because the font size in force changes:
- `height` is the 18-point size the section title sets (controllers/forecastController.js:617). It
  applies to every row before the first page break.
- `contHeight` is the 14-point size set by the continuation title (controllers/forecastController.js:880).
  Neither `restore` nor `addPage` resets it, so it applies to every row after the first break.

The cursor position after the section title (`top`) and after the continuation title
(`titleBottom`) are parameters too. The page is A4 (595.28 by 841.89 points).

**Where the documentation and the code disagree, the model follows the code.**
- The system prompt shows the CSV schema `date,product,predicted_quantity,confidence_level` with the
  example row `2023-08-01,ProductA,120,high` (utils/groqHelper.js:50-54). Written one field per line,
  that row does not come back whole from the normaliser. The code yields `2023-08-01,ProductA 120,high`,
  because `ProductA` is not a fragment and is buffered with a space. `Normalizer.FragmentRowExample`
  proves the code's output.
- The comment at controllers/forecastController.js:490 says a buffer of four comma-separated parts is a
  complete row. The test below it counts the empty part after the buffer's trailing comma, so three
  fragments already pass it. This is shown under "## Findings". The forecast section
  (`TablePages.SectionOps`) keeps the normaliser as written, because it models the code. The corrected
  normaliser is modelled and proved beside it.

## Model

| member | source | states |
|---|---|---|
| Js.Trim | controllers/forecastController.js:468 | the result is the input minus a blank prefix and a blank suffix, and it neither starts nor ends with JavaScript whitespace |
| Js.TrimIdempotent | controllers/forecastController.js:633 | trimming an already trimmed line changes nothing |
| Js.LinesEmptyIff | controllers/forecastController.js:630-634 | splitting, trimming and dropping empty lines leaves nothing exactly when every physical line is blank |
| Js.SplitJoin | controllers/forecastController.js:497 | splitting a join of separator-free parts on the separator gives back the parts |
| Js.IndexOf | utils/groqHelper.js:89 | the result is the first position at or after `from` where the pattern occurs, or none when it occurs nowhere there |
| Js.NatToStringRoundTrip | controllers/forecastController.js:254 | the decimal text of the item number reads back as that number |
| Normalizer.Consume | controllers/forecastController.js:474-495 | one pass of the loop body leaves exactly the buffer and rows that `Step` gives for the line |
| Normalizer.NormalizeForecastCsv | controllers/forecastController.js:465-498 | the loop's output is the newline join of the rows of the left fold `Run` over the trimmed non-empty lines |
| Normalizer.TrimTrailingCommas | controllers/forecastController.js:492 | the result is a prefix of the input, only commas were removed, and it does not end in a comma |
| Normalizer.FragmentHasNoComma | controllers/forecastController.js:476-480 | a fragment line (date, SKU code, integer or confidence word) contains no comma |
| Normalizer.RunBufferNotFull | controllers/forecastController.js:490-494 | after every line the buffer never holds exactly four comma-separated parts: such a buffer is always flushed |
| Normalizer.StepAppendsAtMostOne | controllers/forecastController.js:474-495 | one line keeps the rows emitted so far as a prefix and adds at most one row |
| Normalizer.RunRowsBound | controllers/forecastController.js:474-495 | there are never more output rows than input lines |
| Normalizer.RunPrefix | controllers/forecastController.js:474-495 | rows are emitted in input order and never retracted: the rows for a prefix of the lines are a prefix of the rows |
| Normalizer.PassThrough | controllers/forecastController.js:483-485 | a non-fragment line with at least four parts is emitted unchanged and leaves the buffer alone |
| Normalizer.FlushShape | controllers/forecastController.js:482-494 | a buffered line triggers a flush exactly when the buffer reaches three commas; the flushed row has no trailing comma and no more commas than the buffer |
| Normalizer.RunAllComplete | controllers/forecastController.js:483-485 | when every line already has at least four parts, the output rows are the lines themselves and the buffer stays empty |
| Normalizer.LinesAreClean | controllers/forecastController.js:466-469 | every line after the split, trim and filter is non-empty, trimmed and free of newlines |
| Normalizer.LinesOfJoin | controllers/forecastController.js:466-469 | splitting and filtering a newline join of clean lines gives back those lines |
| Normalizer.NormalizeCompleteRows | controllers/forecastController.js:465-498 | on input whose lines all have four or more fields, normalising only trims and drops blank lines, and normalising twice equals normalising once |
| Normalizer.StuckBuffer | controllers/forecastController.js:491 | once the buffer has more than three commas it never flushes again: later buffered lines are lost and only pass-through lines are still emitted |
| Normalizer.OverfullBuffer | controllers/forecastController.js:482-494 | a date, a SKU and then a short line with two commas overshoot the buffer to four commas, and nothing is emitted |
| Normalizer.SplitRowWithNameField | controllers/forecastController.js:482-494 | date, a product name that is not a fragment, quantity and level form the single row `date,name quantity,level` |
| Normalizer.FragmentRowExample | controllers/forecastController.js:465-498 | the four-line ProductA example normalises to `2023-08-01,ProductA 120,high` |
| Normalizer.SplitRowOfFragments | controllers/forecastController.js:482-494 | four fragment lines emit a three-field row and leave the fourth fragment and a comma in the buffer |
| Normalizer.ShortRowAsWritten | controllers/forecastController.js:491 | as written, four fragment lines yield exactly one row, with three fields, and the last fragment is left buffered |
| Normalizer.ShortRowExample | controllers/forecastController.js:491 | date, `SKU1`, `120`, `high` give the row `2023-08-01,SKU1,120` with `high,` left in the buffer |
| Normalizer.RunFixedRowsComplete | controllers/forecastController.js:490-494 | with the corrected flush test, every emitted row has at least four comma-separated fields |
| Normalizer.StepFixedKeepsComplete | controllers/forecastController.js:490-494 | one corrected step keeps every emitted row at four or more fields |
| Normalizer.StepFixedFragment | controllers/forecastController.js:482-494 | under the corrected test, a fragment either completes a buffer that already has three fields or is appended with a comma |
| Normalizer.FixedFourFragments | controllers/forecastController.js:482-494 | under the corrected test, four fragment lines form the single four-field row and the buffer ends empty |
| TableParse.Headers | controllers/forecastController.js:638-648 | there is one label per comma-separated part of the first line, each the formatted form of that part |
| TableParse.HeaderLabelChars | controllers/forecastController.js:640-647 | the label is as long as the trimmed header; each underscore becomes a space, and each word has a capital first letter and lower-case rest |
| TableParse.WordsTextIsLabel | controllers/forecastController.js:642-647 | split on `_`, capitalise each word and join with spaces is the same as the character-wise label |
| TableParse.HeaderCount | controllers/forecastController.js:638 | the number of headers is the number of commas in the first line plus one |
| TableParse.SplitCells | controllers/forecastController.js:651-670 | the lexer loop returns exactly `Cells(line)` |
| TableParse.LexInvariant | controllers/forecastController.js:656-667 | the lexer is inside quotes exactly when it has seen an odd number of quotes; it has closed one cell per comma outside quotes; its cells joined by commas are the line without quotes |
| TableParse.CellsCount | controllers/forecastController.js:661-670 | a row has one cell more than it has commas outside quotes |
| TableParse.CellsRoundTrip | controllers/forecastController.js:656-670 | the untrimmed cells joined by commas give back the line with its quote characters removed |
| TableParse.CellsHaveNoQuote | controllers/forecastController.js:659-660 | no cell contains a quote character |
| TableParse.CellsWithoutQuotes | controllers/forecastController.js:656-670 | on a line without quotes, the cells are the plain comma split |
| TableParse.QuotedCommaExample | controllers/forecastController.js:656-670 | `a,"b,c",d` parses to the three cells `a`, `b,c` and `d` |
| TableParse.UnterminatedQuoteExample | controllers/forecastController.js:656-670 | an unclosed quote swallows the rest of the line into the last cell |
| TableParse.Padded | controllers/forecastController.js:672-675 | a short row is padded with empty cells up to the header count; a long row is kept whole; existing cells are unchanged |
| TableParse.PadRow | controllers/forecastController.js:673-675 | the padding loop returns `Padded(cells, n)` |
| TableParse.ParseRows | controllers/forecastController.js:650-678 | one parsed row per data line, each the padded cells of that line |
| TableLayout.ComputeColumnWidths | controllers/forecastController.js:685-700 | the nested loops return `ColumnWidths`, one width per header |
| TableLayout.WidenRow | controllers/forecastController.js:692-699 | the inner loop widens each column to the row's cell width plus padding where that is larger, and ignores cells beyond the header count, as `Widen` states |
| TableLayout.ColumnWidthsAreMaxima | controllers/forecastController.js:685-700 | each column is at least as wide as its header and as every cell in it, plus padding, and equals one of these |
| TableLayout.ColumnWidthsAtLeastPadding | controllers/forecastController.js:683-688 | with non-negative measurement, every column is at least the padding wide |
| TableLayout.FitScales | controllers/forecastController.js:703-710 | an overwide table is scaled by one ratio so its total is exactly the table width; a table that fits is unchanged |
| TableLayout.FitBound | controllers/forecastController.js:703-710 | the fitted widths never add up to more than the table width |
| TableLayout.FitNonNegative | controllers/forecastController.js:707-709 | scaling keeps widths non-negative |
| TableLayout.ColumnsAbut | controllers/forecastController.js:736-742 | the first column starts at the table's left edge and each column starts where the previous one ends |
| TableLayout.ColumnsInsideTable | controllers/forecastController.js:736-742 | every fitted column edge lies within the table's horizontal extent |
| TableLayout.ComputeRowHeight | controllers/forecastController.js:770-780 | the loop returns `RowHeight` for the row |
| TableLayout.RowHeightIsMaximum | controllers/forecastController.js:766-780 | a row is at least the minimum height and at least each measured cell plus padding, and equals one of these |
| TableLayout.BlankIsNumeric | controllers/forecastController.js:831 | an empty or blank cell counts as a number, as `isNaN` treats it |
| TableLayout.DigitsAreNumeric | controllers/forecastController.js:831 | a string of digits counts as a number |
| TableLayout.NotNumericByFirst | controllers/forecastController.js:831 | a trimmed text that starts with anything but a digit, sign, dot or `I` is not a number |
| TableLayout.AlignPartition | controllers/forecastController.js:826-845 | a cell is centred iff it is a confidence word; right-aligned iff numeric or date-shaped and neither a level word nor SKU-prefixed; left-aligned otherwise |
| TableLayout.ColorMatchesAlignment | controllers/forecastController.js:847-854 | a cell is coloured iff it is centred; `high`, `medium` and `low` (any case) get green, amber and red respectively |
| TableLayout.LevelWordNotSku | controllers/forecastController.js:836-845 | a confidence word never starts with `SKU`, so the later left-alignment rule cannot undo the centring |
| TableLayout.QuantityAlignment | controllers/forecastController.js:831-833 | a quantity cell is right-aligned |
| TableLayout.SkuAlignment | controllers/forecastController.js:843-845 | a SKU code is left-aligned even though it ends in digits |
| TablePages.PlaceUpTo | controllers/forecastController.js:768-934 | placing k rows records exactly k placements |
| TablePages.DrawStep | controllers/forecastController.js:768-934 | drawing one more row appends its operations, then a page break exactly when the row ends below the bottom limit and is not the last; the row is measured at 18 points before the first break and at 14 points after it; the cursor moves accordingly, the shading flips, and the 14-point state is set once a break happens |
| TablePages.DrawTable | controllers/forecastController.js:713-935 | the drawing loop emits exactly `TableOps`: the header band, then every row and every page break in order, each row measured with `height` until the first break and with `contHeight` after it |
| TablePages.PlacementFacts | controllers/forecastController.js:765-934 | rows alternate shading starting unshaded; the first row starts under the header; each next row starts under the previous one, or under the repeated header after a break; a break follows a row exactly when it ends below the limit and is not the last; a row's height is its `heights` entry when no break precedes it and its `later` entry when one does |
| TablePages.EveryRowPlacedOnce | controllers/forecastController.js:768-874 | every row is placed exactly once, and no page break follows the last row |
| TablePages.RowTexts | controllers/forecastController.js:806-861 | a row draws the texts of its cells in order, up to the header count, and nothing beyond it |
| TablePages.HeaderOpsCounts | controllers/forecastController.js:716-759 | the header draws one header band and no row band or continuation title |
| TablePages.RowOpsCounts | controllers/forecastController.js:782-866 | a row draws exactly one row band, with its position, height and shading |
| TablePages.BreakOpsCounts | controllers/forecastController.js:874-933 | a page break draws one continuation title and one header band |
| TablePages.DrawBands | controllers/forecastController.js:768-935 | the row bands drawn are exactly the placements, one per row in order |
| TablePages.DrawBreaks | controllers/forecastController.js:874-934 | there are as many continuation titles and repeated headers as page breaks |
| TablePages.TableCounts | controllers/forecastController.js:713-935 | the table draws each row's band once in order, one continuation title per break, and one header per page |
| TablePages.TableTexts | controllers/forecastController.js:768-861 | the cell texts of the whole table are every row's in-range cells, each row once, rows in input order and cells in column order; header labels and page breaks add no cell text |
| TablePages.DrawnTextsLength | controllers/forecastController.js:806-861 | when every row has at least `n` cells, the table shows `n` texts per row |
| TablePages.DrawnTextAt | controllers/forecastController.js:806-861 | when every row has at least `n` cells, row `j`'s cell `i` is text number `Offset(n, j) + i` |
| TablePages.OffsetIsProduct | controllers/forecastController.js:806-861 | row `j`'s texts start at position `n * j` |
| TablePages.SectionTexts | controllers/forecastController.js:650-861 | in the forecast section every data line is shown as exactly one text per header, lines in order: its cell `i` where it has one, and an empty text where the row was padded |
| TablePages.HeightsAreBounded | controllers/forecastController.js:766-780 | every planned row height is at least the minimum and covers each measured cell |
| TablePages.RemoveCR | controllers/forecastController.js:631 | the result has no carriage return and keeps every other character |
| TablePages.RemoveCRNoCR | controllers/forecastController.js:631 | text without carriage returns is unchanged |
| TablePages.ForecastSection | controllers/forecastController.js:614-941 | the section code emits exactly `SectionOps` for the parsed CSV, rows measured at the 18-point size until the first break and at the 14-point size after it |
| TablePages.NoSectionWithoutCsv | controllers/forecastController.js:614 | the section draws nothing exactly when there is no CSV or it is empty |
| TablePages.BodyShape | controllers/forecastController.js:636-941 | the body starts with "No forecast data available" exactly when no line survives clean-up, and otherwise with the header band |
| TablePages.SectionShape | controllers/forecastController.js:614-641 | a non-empty CSV opens a new page and the section title, then shows "no data" exactly when every line of the normalised text is blank |
| TablePages.SectionHeader | controllers/forecastController.js:713-722 | when there is data, the table header band sits 20 points below the title |
| TablePages.HeaderOnlyTable | controllers/forecastController.js:636-678 | a CSV with only a header line draws the header once and no row band or continuation |
| GroqHelper.Match | utils/groqHelper.js:89 | a match is an opening fence followed, at or after its end, by a closing fence |
| GroqHelper.Parse | utils/groqHelper.js:87-102 | for any pair of fences: without a block the text is the whole response; an extracted CSV is shorter than the response by at least the two fences |
| GroqHelper.ParseGroqResponse | utils/groqHelper.js:87-102 | `Parse` at the fences `` ```csv `` plus newline and newline plus `` ``` ``: without a CSV block the text is the whole response; an extracted CSV is shorter than the response by at least the two fences |
| GroqHelper.NoBlock | utils/groqHelper.js:89-96 | for any fences, no CSV is found exactly when the response has no fenced block, and then the text is unchanged |
| GroqHelper.BlockDecomposition | utils/groqHelper.js:89-96 | for any fences, a found CSV splits the response into prefix, earliest opening fence, CSV containing no closing fence, closing fence and suffix; the text is the trimmed prefix plus suffix |
| GroqHelper.DecompositionParses | utils/groqHelper.js:89-96 | conversely, any such split with the earliest opening fence and the lazy closing fence is what the parser returns |
| GroqHelper.LaterBlockKept | utils/groqHelper.js:95 | only the first block is removed: a second fenced block is still in the text |
| GroqHelper.SystemPrompt | utils/groqHelper.js:42-80 | the prompt always starts with the base prompt; it is exactly the base prompt for unknown types and strictly longer for `csv`, `text` and `automated` |
| GroqHelper.SchemaHasFourColumns | utils/groqHelper.js:50-53 | the prompted CSV schema line has exactly the four columns date, product, predicted quantity and confidence level |
| ForecastController.MissingOf | controllers/forecastController.js:249-251 | the missing fields are exactly the required fields the item lacks |
| ForecastController.MissingOfAppend | controllers/forecastController.js:249-251 | the filter distributes over concatenation of the field list, so field order is kept |
| ForecastController.MissingEmptyIff | controllers/forecastController.js:249-252 | nothing is missing exactly when the item has every required field |
| ForecastController.ValidateItems | controllers/forecastController.js:247-257 | the validation loop throws exactly when some item has its own `hasOwnProperty` key; otherwise it returns `Errors(RequiredFields, items)` |
| ForecastController.Failing | controllers/forecastController.js:248-257 | the failing item indices are increasing, each names an item missing a field, and every such item is listed |
| ForecastController.ErrorsOfFailing | controllers/forecastController.js:248-257 | there is one message per failing item, in item order, naming its one-based number and its missing fields |
| ForecastController.ErrorsEmptyIff | controllers/forecastController.js:259 | there are no validation errors exactly when every item has every required field |
| ForecastController.CheckInventoryRequest | controllers/forecastController.js:217-330 | the request check, with the `catch` that answers a thrown validation with 500 "Failed to generate forecast", returns `CheckRequest(req)` |
| ForecastController.AcceptedIff | controllers/forecastController.js:217-330 | each answer comes exactly from its case: the first 400 answer with its hint message for a missing, non-array or empty body; the 500 answer for a non-empty array with an item that hides `hasOwnProperty`; acceptance for a non-empty array with no such item whose items all have every required field; otherwise the second 400 answer, whose `validationErrors` are exactly `Errors` |
| ForecastController.ShadowedItemFails | controllers/forecastController.js:248-251 | an item with its own `hasOwnProperty` key gets the 500 answer even when it and an earlier item lack required fields |
| ForecastController.Keys | controllers/forecastController.js:374 | the header names are the record's keys in order |
| ForecastController.Values | controllers/forecastController.js:375 | a row's values are the record's values in order |
| ForecastController.RowLines | controllers/forecastController.js:375 | one line per record: its values joined by a comma and a space |
| ForecastController.FormatCsvDataForPrompt | controllers/forecastController.js:372-378 | the prompt fails exactly on empty data, where `data[0]` is undefined |
| ForecastController.PromptLines | controllers/forecastController.js:372-378 | for single-line values, the prompt's lines are "CSV Data:", the header line, "Rows:" and then one line per record |
| ForecastController.PromptIsJoin | controllers/forecastController.js:374-377 | the prompt is the newline join of the title, header line, "Rows:" and the row lines |
| ForecastController.UserPromptAsWritten | controllers/forecastController.js:340-351 | as written, every type other than `csv`, `text` and `automated` sends an empty user prompt |
| ForecastController.InventoryPromptDropped | controllers/forecastController.js:270 | as written, the inventory analysis passed with type `inventory` is replaced by an empty prompt |
| ForecastController.UserPrompt | controllers/forecastController.js:343-351 | the corrected prompt fails only for `csv` with no rows |
| ForecastController.UserPromptCarriesData | controllers/forecastController.js:348-350 | the corrected prompt sends the data itself for `text`, `automated` and `inventory`, and agrees with the code for every other type |
| ForecastController.GroqRequest | controllers/forecastController.js:340-357 | the system prompt sent always starts with the base prompt; the request fails only for `csv` with no rows; the user prompt is the formatted CSV for `csv`, the data itself for `text` and `automated`, and empty, with the bare base system prompt, for every other type |
| ForecastController.GroqRequestFixed | controllers/forecastController.js:340-357 | with the corrected prompt selection, the request fails only for `csv` with no rows and sends the data itself for `text`, `automated` and `inventory` |
| ForecastController.GroqRequestsAgree | controllers/forecastController.js:343-351 | the code's request and the corrected one are equal for every type but `inventory`; there they share the system prompt, and the code sends an empty user prompt where the corrected one sends the analysis |

## Left out

- File, network and PDF output (`fs.writeFileSync`, Cloudinary uploads, the HTTP responses' transport, the call to the Groq API in `callGroqApi`) are not modelled. The API answer is a parameter of `GroqHelper.ParseGroqResponse`.
- PDFKit's own overflow handling is not modelled. The `Op` sequence records the calls the code makes, not what PDFKit renders: a cell text placed near the bottom margin (`margin: 50`, controllers/forecastController.js:511) can be moved to a new page by PDFKit itself.
- PDFKit's drawing state is left out: fonts, gradients, line widths, `save`/`restore` and the text cursor. Draw calls are recorded as `TablePages.Op` values. The cursor positions `doc.y` after the two titles are the parameters `top` and `titleBottom`.
- Text measurement (`widthOfString`, `heightOfString`) depends on font metrics and is a parameter: `width` for the column widths, and `height` (18 points, before the first page break) and `contHeight` (14 points, after it) for the rows. Both height measures are called with the cell width minus padding, as in the code.
- Floating-point rounding is not modelled: widths and heights are `real`.
- The rest of `generateForecastPdf` (cover, narrative text, markdown clean-up) is not modelled. Neither is `formatInventoryDataForForecast`, whose output is text built from floating-point statistics and enters the model as the `Text` payload.
- `JSON.stringify` of non-string payloads is not modelled: the stringified text is the `Json` payload.
- `Object.keys` ordering is not modelled. A record is a sequence of `Field` pairs in key order, so integer-like keys, which JavaScript lists first, are assumed already in that order.
- An item is the set of its own property names, so `hasOwnProperty` is membership. The exception is an own property named `hasOwnProperty`, which hides the method: the call throws and the catch answers 500 (`Failed`). Requests whose items are not objects are not modelled.
- The 500 answer's `timestamp` (a clock reading) and the `console.error` log are not modelled; `Failed` carries its `message` and its `error` text.
- When the request body is an array, `inventoryData` may be any non-empty array. Falsy and non-array bodies are collapsed into `NotAnArray`.
- ForecastController.WellPaired: the callers always pair `csv` with records and the other types with text. The model requires this pairing and does not model a mismatched call.
- Case mapping is ASCII only. `toUpperCase`/`toLowerCase` on non-ASCII characters are not modelled; for example, `ſku` upper-cases to `SKU` in JavaScript.
- `isNaN` is modelled by the StringNumericLiteral grammar of section 7.1.4.1 of ECMAScript 2023 on the trimmed text. Numeric separators are not part of that grammar, and `Infinity` is included.
- Errors thrown inside `processWithGroq` (caught and rethrown with a fixed message) are the `None` results of `ForecastController.GroqRequest`.
- GroqHelper.SystemPrompt: the three known types' suffixes are stated as exact constants in the model. The contract proves only that they extend the base prompt, not that the three differ from one another.
- The structured-record table mode and truncation with `...` are not in the modelled code path and are not modelled.
- The `jobId` bookkeeping, the cron entry points and the database models are not part of this model.

## Findings

| source | as written | input that shows it | evidently intended | confidence | as-written member | corrected member |
|---|---|---|---|---|---|---|
| controllers/forecastController.js:491 | the flush test counts parts of the buffer before trimming its trailing comma, so a buffer of three fragments and a comma already has four parts | the lines `2023-08-01`, `SKU1`, `120`, `high`: the row `2023-08-01,SKU1,120` is emitted and `high,` stays in the buffer and is lost | a row of four fragments is flushed as one four-field row, as the four-field row shape requires | medium, not executed | Normalizer.ShortRowAsWritten, Normalizer.ShortRowExample | Normalizer.RunFixed, Normalizer.RunFixedRowsComplete, Normalizer.FixedFourFragments |
| controllers/forecastController.js:270, 345-351 | `processWithGroq` builds a user prompt only for `csv`, `text` and `automated`, but the inventory endpoint calls it with type `inventory` | any valid inventory request: the analysis from `formatInventoryDataForForecast` is discarded and the model receives an empty user prompt | the inventory analysis text is sent as the prompt, as for `automated` | high, not executed | ForecastController.UserPromptAsWritten, ForecastController.InventoryPromptDropped, ForecastController.GroqRequestsAgree | ForecastController.UserPrompt, ForecastController.UserPromptCarriesData, ForecastController.GroqRequestFixed |

The model of the PDF section runs the normaliser as written, since the PDF section models the code.
`Normalizer.RunFixed` is the corrected normaliser. `ForecastController.GroqRequest` is the code's
request; `ForecastController.GroqRequestFixed` uses the corrected prompt selection.
