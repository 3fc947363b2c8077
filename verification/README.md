# IDWR CSV viewer: parsing, schema and pivot core in Dafny

This project models the data logic of the browser viewer in
`viewer/script.js`. The viewer reads a CSV file of infectious-disease
surveillance counts (columns `year`, `week`, `disease` or its alias
`pathogen`, and `cases`) and turns it into chart-ready labels and series.
Four layouts exist:

- weekly data: diseases compared within one year, years compared for one
  disease, or years laid end to end for one disease;
- yearly data: diseases compared across years.

The model covers:

- **`parseCSV`** (`csv.dfy`): a character loop in which `"` toggles a
  quote flag and a comma outside quotes ends a cell, plus the removal of a
  leading byte-order mark.
- **Header clean-up and column checks** (`schema.dfy`): the BOM strip, the
  `pathogen` to `disease` rename, and the `indexOf` checks of `drawChart`.
- **`analyzeData`** (`domain.dfy`): the sets of available years and diseases,
  filled by one `forEach` and then sorted.
- **The shared machinery of the draw functions** (`records.dfy`): rows read
  through the resolved columns, the row filters, the week `Set`, and the
  nested `maps[key][week] = cases` objects, where a later row overwrites an
  earlier one.
- **The four draw functions** (`pivot.dfy`): `drawByDisease`, `drawByYear`,
  `drawTandemYears` and `drawYearlyByDisease`.
- **The page state** (`app.dfy`): the module variables `allRows`,
  `availableYears` and `availableDiseases` as the fields of class
  `App.Viewer`, with the entry points `handleCsvText`, `analyzeData`,
  `drawChart` and the load-error branch.
- **Supporting modules**: `js_values.dfy` holds the JavaScript value
  semantics the code relies on: `Number(...)` as an integer or NaN, missing
  cells, `===` against `includes`, `trim` and `indexOf`. `sorting.dfy`
  models `Array.prototype.sort` as a stable insertion sort, together with
  the comparators the viewer passes to it.

Each draw function is a pure function giving the outcome: a refusal
message, a cleared chart, or the chart's labels and series. Where the source
accumulates into sets, maps or arrays, a method does the same accumulation
and is proved to give that outcome. The series values have independent
reference definitions:

- `LastCases` gives the last write to a map cell.
- `LastKeptWriter` gives the position of the last kept row that writes it.
- `FirstMatch` gives the row that `find` returns.

Lemmas tie the charts to these definitions.

Two consequences of the code are worth naming:

- `drawChart` reports a missing column per dataset type, without naming
  which column is missing (viewer/script.js:312-314, 328-330).
- The tandem line never has null points. Each year's weeks come from the
  same writes that fill its map (viewer/script.js:526-531; `TandemHasNoGaps`).

## Model

| member | source | states |
|---|---|---|
| Csv.SplitLine | viewer/script.js:166-183 | The character loop for one line gives the line's cells: one more cell than commas outside quotes, no cell containing `"`, and the cells joined with commas equal to the line without its quotes. Where each cell ends is stated by `CellsSplitAtOutsideComma` and `CellsWithoutOutsideComma`. |
| Csv.ScanCounts | viewer/script.js:171-181 | After any prefix, the in-quotes flag is the parity of the quotes seen and the finished cells number the commas seen outside quotes. |
| Csv.ScanContents | viewer/script.js:171-181 | After any prefix, no finished or open cell holds a quote, and the cells joined with commas give back the prefix without its quotes. |
| Csv.CellsFacts | viewer/script.js:166-184 | A line splits into 1 + (commas outside quotes) cells, none containing `"`, whose comma-join is the unquoted line. |
| Csv.ScanAfterComma | viewer/script.js:171-181 | After a comma outside quotes the loop restarts: the cells before the comma are finished, and the rest is scanned as if it began the line. |
| Csv.CellsSplitAtOutsideComma | viewer/script.js:175-177 | A comma outside quotes ends the current cell: the cells of `a,b` are the cells of `a` followed by the cells of `b`, whenever `a` has an even number of quotes. |
| Csv.CellsWithoutOutsideComma | viewer/script.js:171-183 | A line with no comma outside quotes is a single cell: the line without its quotes, with any commas inside quotes kept. |
| Csv.QuotedCommaExample | viewer/script.js:173-180 | `x,"1,2",y` splits into `x`, `1,2`, `y`. |
| Csv.SplitLines | viewer/script.js:165 | Splitting at `\r?\n` gives one line per line feed plus one, none containing a line feed. |
| Csv.SplitLinesRoundTrip | viewer/script.js:165 | The lines are the text's pieces between line feeds: joined with `\n` they give back the text with each `\r\n` turned into `\n`, so only the `\r` right before a line feed is lost. |
| JsValues.Trim | viewer/script.js:165 | `trim` leaves a text that neither starts nor ends with white space (as ECMAScript defines it, including U+FEFF). |
| JsValues.StripBom | viewer/script.js:144 | `replace(/^\uFEFF/, "")` (also at line 188) drops the first character exactly when it is a byte-order mark, and otherwise returns the text unchanged. |
| JsValues.IndexOf | viewer/script.js:146-147 | `indexOf` (also at lines 225-226 and 301-304) gives -1 exactly when the value is absent, and otherwise the first position that holds it. |
| JsValues.TrimFacts | viewer/script.js:165 | `trim` returns a slice of the text: everything before the slice and everything after it is white space. Together with `Trim`'s ends this makes it the text less exactly its leading and trailing white space. |
| Csv.ParseLines | viewer/script.js:166-184 | The loop over the lines splits every line, in order. |
| Csv.ParseCsv | viewer/script.js:164-192 | `parseCSV` returns the table: the lines of the trimmed text, each split into cells, with one leading byte-order mark removed from the first cell of the first row. |
| Csv.Table | viewer/script.js:164-192 | `parseCSV` gives one row per line of the trimmed text. |
| Csv.StripLeadingBom | viewer/script.js:186-189 | Only the first cell of the first row can change, and it loses one leading byte-order mark; every row keeps its width. |
| Csv.TableFacts | viewer/script.js:164-192 | The table has one row per line feed of the trimmed text, plus one; each row has 1 + (commas outside quotes) cells; every cell except the header's first equals its line's cell, and that one loses its byte-order mark. |
| Csv.NoDataRowsIffSingleLine | viewer/script.js:131-133 | `allRows.length <= 1` holds exactly when the trimmed text has no line feed. |
| Schema.NormalizeHeader | viewer/script.js:141-150 | The cleaned header is as wide as before, and it has a `disease` column exactly when the header had `disease` or `pathogen`. |
| Schema.NormalizeHeaderFacts | viewer/script.js:141-150 | Only the first header cell can lose a byte-order mark. A header with `disease`, or without `pathogen`, is otherwise unchanged. Otherwise only the first `pathogen` becomes `disease`, and `disease` then resolves to that position. |
| Schema.BothColumnsStayDistinct | viewer/script.js:146-149 | When both `disease` and `pathogen` are present, they keep separate positions and `pathogen` is not renamed. |
| Schema.PathogenRenamed | viewer/script.js:146-149 | Renaming `pathogen` gives the header a `disease` column; every other column name is present afterwards exactly when it was before. |
| Schema.ResolvesIffRequiredPresent | viewer/script.js:300-333 | The `indexOf(...) === -1` test of each dataset type passes exactly when the header names every column that type needs: year, week, disease and cases for weekly data; year, disease and cases for yearly data. |
| Domain.AvailableYears | viewer/script.js:250 | `availableYears` is in ascending numeric order (cells that are not numbers last). |
| Domain.AvailableDiseases | viewer/script.js:251 | `availableDiseases` is in ascending string order. |
| Domain.DistinctCellsFacts | viewer/script.js:242-248 | The sets filled by the `forEach` hold each non-empty cell of the column once, and nothing else. |
| Domain.DataCellsFacts | viewer/script.js:245-248 | Over `allRows.slice(1)`, the set holds exactly the non-empty cells below the header, without duplicates. |
| Domain.DomainIndexFacts | viewer/script.js:242-251 | The available years and diseases are exactly the distinct non-empty year and disease cells of the data rows. Years are in ascending numeric order and diseases in strictly ascending string order, neither with duplicates. |
| Domain.IndexDomain | viewer/script.js:242-251 | The single pass that fills both sets, followed by the two sorts, yields the reference year and disease lists. |
| Sorting.Sort | viewer/script.js:250-251 | `Array.prototype.sort` returns a permutation of its input: the same elements with the same multiplicities. |
| Sorting.SortStable | viewer/script.js:250-251 | The sort is stable: the elements that tie under the comparator keep their input order, so `"2020"` and `"02020"` stay in the order they were first seen. |
| Sorting.SortSorted | viewer/script.js:250-251 | Sorting with a comparator that is a total preorder gives a sequence ordered by it. |
| Sorting.SortNoDups | viewer/script.js:250-251 | Sorting a duplicate-free sequence keeps it duplicate-free. |
| Sorting.SortMembers | viewer/script.js:250-251 | Sorting keeps exactly the same members. |
| Sorting.LexLeIsTotalOrder | viewer/script.js:251 | The default string order of `.sort()` is total, transitive and antisymmetric. |
| Records.Filter | viewer/script.js:359-363 | A row is kept exactly when the criterion accepts it, and no more rows are kept than there are. |
| Records.KeptPositions | viewer/script.js:359-363 | The positions of the accepted rows, strictly ascending and within the rows. |
| Records.KeptPositionsMembers | viewer/script.js:359-363 | A position is listed exactly when the row there is accepted. |
| Records.FilterPositions | viewer/script.js:359-363 | `filter` keeps the accepted rows in their original order, each once: its m-th result is the row at the m-th accepted position. |
| Records.FilterEmpty | viewer/script.js:359-369 | The filter keeps nothing exactly when no row matches the criterion. |
| Records.WeekSetFacts | viewer/script.js:371-374 | The week `Set` holds every week value of the rows, NaN included, once. |
| Records.CollectWeeks | viewer/script.js:371-374 | The `forEach` that adds to the week set yields the reference set, without duplicates. |
| Records.WeekAxis | viewer/script.js:375 | The week axis is sorted by `(a, b) => a - b` (NaN last) and has no more points than rows. |
| Records.WeekAxisFacts | viewer/script.js:371-375 | The sorted week axis holds every week value of the rows once each, in strictly ascending numeric order (NaN last), and is non-empty when there are rows. |
| Records.WeekAxisOfFilter | viewer/script.js:359-375 | A week is on the axis exactly when some row that the filter keeps has it. |
| Records.LastCasesIsLastWrite | viewer/script.js:382-390 | Last write wins. A map cell is empty exactly when no row writes it. Otherwise it holds the cases of a row that writes it and after which no row writes it again. |
| Records.LastCasesOfFilter | viewer/script.js:359-390 | Filled from the filtered rows, a cell holds the cases of the last kept row that writes it, or is empty when no kept row does. |
| Records.KeptWriterSkipsLast | viewer/script.js:382-390 | A final row that is dropped, or that does not write the cell, changes neither the last kept writer nor whether one exists. |
| Records.LastKeptWriter | viewer/script.js:382-390 | The position found is a kept row that writes the cell, with no kept writer after it; -1 when none exists. |
| Records.Tabulate | viewer/script.js:377-390 | After the map-filling `forEach`, every `maps[k][w]` cell holds the reference last-write value. |
| Records.ReadTabulated | viewer/script.js:393 | Reading a filled map gives the reference value: null at a NaN week or an unwritten cell, and otherwise the last write. |
| Records.Datasets | viewer/script.js:377-400 | The datasets read from the filled maps are, key by key, the reference lines over the week axis. |
| Records.KeyWeeksFacts | viewer/script.js:522-532 | A key's week set has no duplicates and holds a week exactly when the map cell under that key is filled. |
| Records.TabulateWithWeeks | viewer/script.js:515-532 | The tandem `forEach` fills the maps with the reference last writes and each key's week set with exactly its written weeks. |
| JsValues.ToNum | viewer/script.js:360 | `Number(s)` is a number exactly when `s` is empty or is decimal digits with at most one leading sign; everything else (`"1a2"`, `"W1"`, `"--1"`, `"+"`) is NaN. The empty string is 0, digits give their value (leading zeros included, so `"007"` is 7), `+` keeps it and `-` negates it (`"-0"` is 0). |
| JsValues.ToNumLeadingZero | viewer/script.js:360 | A leading zero does not change the number, so `"07"` and `"7"` meet on one axis point. |
| JsValues.ToNumDecimal | viewer/script.js:360 | `Number` reads back every integer written in decimal, with or without a minus sign. |
| Pivot.WeekLabels | viewer/script.js:371-375 | The x axis of the weekly charts holds each week of a kept row exactly once, in strictly ascending order. |
| Pivot.WeekChartShape | viewer/script.js:359-402 | The by-disease and by-year charts are never refused once the rows are read. A chart is cleared exactly when no row is kept. Otherwise the axis is every kept week once, ascending, and there is one dataset per key, in key order, each as long as the axis. |
| Pivot.WeekChartPoint | viewer/script.js:382-393 | Each value is null at a NaN week. Otherwise it is the cases of the last kept row, in file order, that has that key, that week and numeric cases; it is null when no such row exists. |
| Pivot.ByDisease | viewer/script.js:338-404 | `drawByDisease` refuses exactly when no year or no disease is chosen; a drawn chart has one line per chosen disease. |
| Pivot.DrawByDisease | viewer/script.js:338-404 | `drawByDisease` refuses when no year is chosen, then when no disease is chosen. Otherwise it gives the by-disease chart: rows of the `===` year with a chosen disease, keyed by disease. |
| Pivot.SortedYears | viewer/script.js:429 | The chosen years as numbers, one per chosen year, in ascending order. |
| Pivot.SortedYearsFacts | viewer/script.js:429 | The chosen years as numbers, sorted: one per chosen year, ascending, with nothing else. |
| Pivot.ByYear | viewer/script.js:407-476 | `drawByYear` refuses exactly when no disease or no year is chosen; a drawn chart has one line per chosen year. |
| Pivot.DrawByYear | viewer/script.js:407-476 | `drawByYear` refuses when no disease is chosen, then when no year is chosen. Otherwise it gives the by-year chart for the first disease: rows whose year is one of the sorted chosen years (`includes`), keyed by year. |
| Pivot.FirstDiseaseOnly | viewer/script.js:428 | By-year and tandem charts depend only on the first chosen disease. |
| Pivot.BlockFacts | viewer/script.js:537-542 | A year's block has one point per week written under that year, each carrying that week's last-written cases. Every written week appears, and a non-empty block has a numeric year. |
| Pivot.TandemPointsSound | viewer/script.js:534-543 | Every tandem point belongs to a chosen numeric year and a week some kept row writes with numeric year, week and cases, and carries the last such row's cases. |
| Pivot.TandemPointsComplete | viewer/script.js:522-543 | Every week written under a chosen year has its point on the tandem line. |
| Pivot.TandemHasNoGaps | viewer/script.js:539-542 | The tandem chart has one series, as long as its labels, and no null point. |
| Pivot.BlockOrdered | viewer/script.js:538 | Within a year's block, the weeks are strictly ascending. |
| Pivot.TandemOrdered | viewer/script.js:537-543 | For ascending, distinct years, the tandem labels are strictly ascending by (year, week): block after block, and no label repeats. |
| Pivot.LayOutTandem | viewer/script.js:534-543 | The nested pushes give exactly the labels and values of the reference tandem points. |
| Pivot.Tandem | viewer/script.js:479-554 | `drawTandemYears` refuses exactly when no disease or no year is chosen; a drawn chart has a single line. |
| Pivot.DrawTandem | viewer/script.js:479-554 | `drawTandemYears` refuses when no disease is chosen, then when no year is chosen. It clears when no row is kept, and otherwise gives the tandem chart of the first disease over the sorted chosen years. |
| Pivot.FirstMatch | viewer/script.js:584-586 | `find` stops at the first row with `===` year and the same disease, or finds none. |
| Pivot.YearlyByDisease | viewer/script.js:557-599 | `drawYearlyByDisease` refuses exactly when no disease is chosen, never clears the chart, and draws one line per chosen disease. |
| Pivot.YearlyFacts | viewer/script.js:557-599 | The yearly chart is refused exactly when no disease is chosen, and is never cleared. Its axis is the chosen years, or when none are chosen the available years, in ascending order, with one series per chosen disease. |
| Pivot.YearlyPoint | viewer/script.js:582-588 | A yearly value exists exactly when some row matches that year (never a NaN year) and that disease. It is then the cases of the first match, NaN when those cases are not a number. |
| Pivot.WeeklyKeepsLastDuplicate | viewer/script.js:382-390 | Two rows for 2020, week 1, `flu`, with cases 10 then 99, show 99 on the weekly chart. |
| Pivot.YearlyKeepsFirstDuplicate | viewer/script.js:584-587 | The same two rows show 10 on the yearly chart. |
| App.Draw | viewer/script.js:291-335 | `drawChart` reports that nothing is loaded exactly when there are no rows, and never clears the chart for yearly data. |
| App.DrawRefusals | viewer/script.js:291-335 | `drawChart` refuses exactly when nothing is loaded, and refuses weekly or yearly data exactly when a needed column is missing. Yearly data is never cleared; with its columns present, it is refused exactly when no disease is chosen. |
| App.PathogenHeaderResolves | viewer/script.js:141-150 | After loading, a file whose header says `pathogen` but not `disease`, and has `year` and `cases`, passes the yearly check. It passes the weekly check exactly when it also has `week`. |
| App.LoadedRows | viewer/script.js:131-150 | `allRows` after loading has one row per line; every data row is the parsed row, and a header with data below it keeps its width and has `disease` exactly when the file said `disease` or `pathogen`. |
| App.Analyzed | viewer/script.js:223-251 | Without a `year` or `disease` column the domain lists stay as they were. Otherwise they are the distinct non-empty year and disease cells of the data rows, without duplicates, years in numeric order and diseases in string order. |
| App.Viewer.constructor | viewer/script.js:1-4 | The page starts with no rows and no available years or diseases. |
| App.Viewer.LoadFailed | viewer/script.js:116-119 | A read error empties `allRows` and keeps the domain lists. |
| App.Viewer.AnalyzeData | viewer/script.js:223-251 | The rows are unchanged. The domain lists stay as they were when the header lacks `year` or `disease`, and are otherwise replaced by the index of the data rows. |
| App.Viewer.CleanHeader | viewer/script.js:141-150 | Row 0 is replaced by its cleaned form; the other rows and the domain lists are unchanged. |
| App.Viewer.ReadTable | viewer/script.js:131-150 | `allRows` becomes the parsed table, with its header cleaned when there are data rows; the result reports whether there are any. |
| App.Viewer.HandleCsvText | viewer/script.js:126-160 | With at most one row, loading stops with the domain lists untouched. Otherwise it reports the number of data rows, cleans the header and indexes the domain. |
| App.Viewer.DrawChart | viewer/script.js:291-335 | The draw button gives the reference outcome for the current rows, available years, dataset type, mode and selection. |

## Left out

- JsValues.ToNum: models `Number(...)` only on the empty string (0) and on an optional sign followed by decimal digits. Leading or trailing white space, decimals, exponents, hex, `Infinity` and floating-point case counts become NaN here, whereas JavaScript gives numbers. JavaScript numbers are doubles: digit strings beyond 2^53 round, so two distinct long week or year cells can merge on an axis and match under `===`, whereas the model's unbounded integers keep them apart.
- Sorting.NumLe: a comparator `(a, b) => a - b` that meets NaN returns NaN, and JavaScript then leaves the order unspecified. The model puts NaN after every integer.
- Sorting.LexLe: `.sort()` compares UTF-16 code units. The model compares characters, which agrees on the Basic Multilingual Plane only.
- Object keys: the maps are JavaScript objects keyed by `String(key)`, and the model keys them by value. `String` is one-to-one on the disease names and on the integer weeks and years the model uses (`-0`, which `String` writes as `0`, is already 0 here), so the cells are the same. A disease named `__proto__` also reads back what was written: the assignment at viewer/script.js:379 installs the new object as the prototype, and that object is the one read and written afterwards.
- The mode radio: a `mode` value outside the three known ones, where the source draws nothing, is not represented.
- File and network input (`FileReader`, `fetch`): the text is a parameter. Only the error branch's effect on `allRows` is modelled, as `LoadFailed`.
- The DOM: the selections are passed in as a `Selection`, with the disease options in their on-screen order. Enabling and disabling controls, filling the `<select>` lists and the summary, messages and their wording, and `handleDatasetTypeChange` are not modelled.
- `updateChart` and Chart.js, label text and dataset styling, the modal, and `downloadChartAsHtml`: these are presentation, I/O or foreign code. A chart is modelled as its labels and series.
