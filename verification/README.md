# Federal awards dashboard: the data-shaping core

The dashboard loads monthly federal-contract statistics with one `Month` column and,
for each industry sector, a pair of columns `<Sector>_Awards` (award counts) and
`<Sector>_Dollars` (currency text such as `"$1,234"`). At start-up it strips `$` and
`,` from every dollar column and reads the cells as numbers. It derives the sector
catalog from the column names. A "Select All" checkbox either forces the selection to
the whole catalog or passes the explicit checklist through. The chart callback sums the
selected sectors' columns month by month and labels the bars and points with
thousands-grouped numbers.

This project models that logic in Dafny:

- `strings.dfy` (`Strings`): substring search with Python's `in` and `split` semantics,
  and duplicate-free sequences.
- `decimal.dfy` (`Decimal`): decimal digits and the parse of an optionally signed digit
  string.
- `frame.dfy` (`Frame`): cells, the table (months, header in file order, columns by
  name), and the well-formedness and "loaded" invariants.
- `loader.dfy` (`Loader`): the currency cleanup. The loop over the columns is a method
  of the `DataFrame` class that rewrites the dollar columns in place. It is proved
  against the specification function `CleanColumns`.
- `catalog.dfy` (`Sectors`): sector names from the `_Awards` columns.
- `selection.dfy` (`Selection`): `toggle_select_all`.
- `aggregator.dfy` (`Aggregator`): the accumulate-per-sector loop of `update_chart`. It
  is proved against the per-month specification `Total`.
- `labels.dfy` (`Labels`): the two label formats, and their round trip through the
  cleanup.

Cells are integers, so every sum is exact. Two details of the program's behaviour are
easy to misread:

- A sector comes from any column name that *contains* `_Awards`, not one that ends with
  it. So `X_Awards_Y` yields `X`, and a sector whose own name contains `_Awards` never
  reaches the catalog (`Sectors.CatalogPairedSectors`).
- The aggregation walks the selection as a list, so a repeated entry is added once per
  occurrence (`Aggregator.TotalAppend`, `Aggregator.TotalDuplicated`). The order of the
  entries does not matter (`Aggregator.TotalPermutation`).

Python's `set` gives the catalog no defined order. The model lists each sector where
its first column appears. `Selection.SelectAllTotals` shows that the totals are the same
for every ordering.

## Model

| member | source | states |
|---|---|---|
| `Loader.StripCurrency` | app.py:19 | the result holds no `$` or `,` and is no longer than the cell text |
| `Loader.StripCurrencyKeeps` | app.py:19 | every character other than `$` and `,` is kept exactly as often as it occurs; `$` and `,` are gone |
| `Loader.StripCurrencyConcat` | app.py:19 | stripping a concatenation is concatenating the stripped parts, so the kept characters stay in order |
| `Loader.StripCurrencyUnmarked` | app.py:19 | text without `$` or `,` is left unchanged |
| `Loader.StripCurrencyIdempotent` | app.py:19 | stripping twice is stripping once |
| `Decimal.ParseInt` | app.py:19 | a value comes back exactly for a non-empty digit string, or a `+` or `-` followed by a non-empty digit string; the value is negative only after a `-` |
| `Decimal.DigitsValueLeadingZeros` | app.py:19 | leading zeros do not change the value of a digit string |
| `Decimal.ParseIntSigned` | app.py:19 | a non-empty digit string reads as its value, unchanged after a `+` and negated after a `-` |
| `Decimal.ParseIntPadded` | app.py:19 | any digit string, with any number of leading zeros and an optional `+`, reads as its number, and with a `-` as its negation |
| `Decimal.DigitsValueOfDigits` | app.py:19 | reading the printed digits of a natural number gives the number back |
| `Decimal.ParseIntOfDigits` | app.py:19 | parsing the printed form of any integer, with a minus sign when negative, gives the integer back |
| `Decimal.Digits` | app.py:103 | the printed digits are non-empty decimal digits with no leading zero |
| `Loader.CleanCell` | app.py:19 | a text cell becomes the number its stripped text parses to, or a format error naming the column, row and text; a cell already numeric is kept |
| `Loader.CleanColumn` | app.py:19 | the column cleans exactly when every cell does; then each cell is its cleaned form, all numeric, same length; otherwise the error is that of the first bad row |
| `Loader.CleanColumnsOk` | app.py:17-19 | the cleanup succeeds exactly when every `_Dollars` column cleans; it then replaces each such column by its cleaned cells, keeps every other column unchanged and keeps the set of columns |
| `Loader.CleanColumnsFirstError` | app.py:17-19 | a failed cleanup reports the error of the first `_Dollars` column, in header order, that does not clean |
| `Loader.CleanColumnsErrorSticks` | app.py:17-19 | once a column fails, the loop's outcome is that failure |
| `Loader.CleanedDollarColumnsNumeric` | app.py:17-19 | after a successful cleanup the table is still well formed and every `_Dollars` column holds numbers only |
| `Loader.DataFrame.CleanDollarColumns` | app.py:17-19 | the in-place loop over the columns ends with exactly the columns `CleanColumns` describes, or returns its error; months and header unchanged, table well formed |
| `Sectors.SectorOf` | app.py:22 | the sector is a prefix of the column name; when the name contains `_Awards`, the sector is followed by `_Awards` and does not contain it, otherwise it is the whole name |
| `Sectors.Catalog` | app.py:22-23 | the catalog is duplicate-free and holds exactly the sectors of the column names that contain `_Awards` |
| `Sectors.SectorOfAppended` | app.py:22 | a name that does not contain `_Awards` is recovered from `<name>_Awards<rest>` |
| `Sectors.SectorOfInnerMarker` | app.py:22 | `X_Awards_Y` gives sector `X` |
| `Sectors.CatalogPairedSectors` | app.py:22-23 | no catalog entry contains `_Awards`; a sector with both paired columns is in the catalog exactly when its name does not contain `_Awards` |
| `Selection.ToggleSelectAll` | app.py:62-67 | with `ALL` ticked the result is the full catalog whatever the explicit list holds; without it, the explicit list unchanged, the empty list included |
| `Selection.SelectAllTotals` | app.py:62-88 | with `ALL` ticked, every month's totals equal the sums over all sectors that have both paired columns and whose name does not contain `_Awards`, each once, in any order |
| `Aggregator.Aggregate` | app.py:79-88 | one row per month with the month labels copied, and each month's award and dollar totals equal to `Total` over the selection |
| `Aggregator.TotalAppend` | app.py:82-88 | totals over a concatenated selection are the sums of the parts' totals, so each occurrence of an entry counts |
| `Aggregator.TotalDuplicated` | app.py:82-88 | selecting every entry twice doubles every total |
| `Aggregator.TotalPermutation` | app.py:82-88 | two selections with the same entries, counted with multiplicity, give the same totals |
| `Aggregator.PairedOnly` | app.py:86 | keeps exactly the selected entries that have both paired columns, and keeps a duplicate-free selection duplicate-free |
| `Aggregator.TotalSkipsUnpaired` | app.py:86 | entries missing either paired column change no total |
| `Aggregator.TotalWithoutPairs` | app.py:79-88 | a selection with no paired entry, the empty one included, gives all-zero totals |
| `Labels.GroupDigitsStrip` | app.py:103 | removing the commas from the grouped label gives the plain decimal digits |
| `Labels.GroupDigitsShape` | app.py:103 | the grouped label is one to three digits followed by groups of a comma and three digits |
| `Labels.WellGroupedUnique` | app.py:103 | two grouped strings with the same digits are equal |
| `Labels.ThousandsLabelGrouped` | app.py:103 | the label of a non-negative integer is the only grouped string whose digits are those of the integer |
| `Labels.ThousandsLabel` | app.py:103 | the label of a non-negative integer is digits grouped by commas, and of a negative one a minus sign before such a group; stripping `$` and `,` gives the plain decimal form, which parses back to the integer |
| `Labels.DollarsLabel` | app.py:115 | the dollar label is `$` followed by exactly the thousands label: comma-grouped digits, after a `-` when negative; stripping `$` and `,` gives the same digits as the thousands label, which parse back to the amount |
| `Labels.DollarsLabelRoundTrip` | app.py:115 | the start-up cleanup reads a dollar label back as exactly the amount it shows |

## Left out

- Reading `data.csv` (app.py:10) is file I/O through pandas. The table is an input to
  the model, and the reader's choice of which cells become numbers is not modelled. The
  aggregation requires (`Frame.Loaded`) that award columns hold numbers. The cleanup
  proves the same for dollar columns.
- The `Month` column is a separate field of the table. A missing `Month` column, which
  would be a `KeyError` in pandas, is not modelled. Duplicate column names are excluded
  (`Frame.WellFormed`), as pandas renames duplicates on reading.
- Loader.CleanCell: accepts only an optionally signed digit string after stripping. Python's `float()` also accepts decimals, exponents, surrounding blanks, underscores, `inf` and `nan`; the model reports those cells as format errors.
- Decimal.ParseInt: parses integers only, for the same reason. Floating point is out of scope.
- Aggregator.Aggregate: sums integers exactly. It does not model floating-point sums or the final `.round(0)` of the dollar totals (app.py:91), which does nothing to whole numbers.
- Loader.DataFrame.CleanDollarColumns: on a format error it states the error and that the table stays well formed. It does not state which earlier columns were already rewritten, because the program then stops at start-up.
- The Dash app, layout and checklist widgets, including labels that show sector names with underscores replaced by spaces (app.py:29-54). The callback wiring (app.py:57-61, 70-73) is UI plumbing.
- Building the Plotly figure and its styling (app.py:94-156) is presentation through a
  foreign library. Only the label strings (app.py:103, 115) are modelled.
- Debug printing and `app.run_server` (app.py:7, 13-14, 26, 76, 158-160) are I/O and
  server start-up.
