# Worksheet address helpers of excel_mcp

This project models, in Dafny, the three helpers of `excel_mcp/utils.py` that
the Excel MCP server uses to reason about worksheet addresses:

- `_col_to_index` turns column letters into a column number (A = 1, Z = 26,
  AA = 27). It upper-cases the text and skips every character that is not a
  letter.
- `address_within_ranges` decides whether a qualified address such as
  `Sheet1!B2` lies inside one of a list of qualified ranges such as
  `Sheet1!A1:C3`.
- `collect_column_outputs` gathers the outputs of the cells around an anchor
  in the anchor's column. It scans up until 100 valid cells or until the
  running count of text cells reaches `text_limit`. It then adds the anchor.
  Last, it scans down until 10 valid cells, the first text cell, or the last
  row holding any valid cell.

Three modules, one per concept:

- `Columns` (`columns.dfy`): column letters and the bijective base-26 numeral
  they denote. `ColumnLetters` specifies openpyxl's `get_column_letter`.
- `Ranges` (`ranges.dfy`): splitting on `!` and `:`, the digits of a row, and
  the loop over the ranges. A Python `ValueError` is the value
  `RaisedValueError` of `Outcome`. Malformed inputs are therefore handled, not
  excluded by preconditions.
- `ColumnContext` (`column_context.dfy`): cells keyed by `Coord(col, row)`.
  The two scans are specified declaratively:
  - `StopsUp` and `KeptUp` say which rows the upward scan reaches.
  - `StopsDown` and `KeptDown` say the same for the downward scan.
  - `Collected` combines them into the key set of the result.

  `ValidCells` is the definition of `valid`: the cells whose output is not
  `None`. Each scan is a method with its own loop (`ScanUpward`,
  `ScanDownward`).
  `CollectColumnOutputs` runs them in the source's order.

Four places where the code differs from what its documentation suggests.
The model follows the code in each case:

- The docstring of `collect_column_outputs` speaks of *consecutive* text
  cells, but the count is never reset by a number or a formula cell
  (`CounterNotReset`).
- Ranges whose start corner lies after their end corner are not normalised.
  They contain nothing (`ReversedAreaNeverContains`).
- `_col_to_index` does not reject non-letters. It skips them
  (`IgnoresNonLetter`).
- The docstring says the downward scan goes "up to 10 rows", but the code
  counts 10 *valid* cells (`added`), skipping rows that are not cells or whose
  output is `None` (`DownwardCap`, `StopsDown`, `DownwardAtMostCap`).

## Model

| member | source | states |
|---|---|---|
| Columns.ColToIndex | excel_mcp/utils.py:6-13 | The loop yields the bijective base-26 value of the upper-cased letters of `col`. The value is never negative, and it is 0 exactly when `col` has no letter. |
| Columns.ColumnLetters | excel_mcp/utils.py:82 | Stands for `get_column_letter`: its result is upper-case letters, empty only for 0. `NumberOfLetters` and `LettersOfNumber` show it inverts the numeral. |
| Columns.NumberOfLetters | excel_mcp/utils.py:81-82 | Decoding the letters that `get_column_letter` gives for `n` yields `n` again. |
| Columns.LettersOfNumber | excel_mcp/utils.py:6-13 | Encoding the value of a string of upper-case letters gives back the same string: the numeral is bijective. |
| Columns.ColumnNumberInjective | excel_mcp/utils.py:6-13 | Two distinct upper-case letter strings never name the same column. |
| Columns.CaseInsensitive | excel_mcp/utils.py:9 | A text, its upper-case form and its lower-case form have the same index. |
| Columns.IgnoresNonLetter | excel_mcp/utils.py:10-11 | Inserting a non-letter anywhere in the text leaves the index unchanged. |
| Columns.LettersFirst | excel_mcp/utils.py:35-37 | Filtering the letters out first, as `address_within_ranges` does, gives the same index. |
| Columns.ColumnValueOfLetters | excel_mcp/utils.py:81-82 | `_col_to_index(get_column_letter(n)) == n`. So the addresses `collect_column_outputs` rebuilds name the anchor's column. |
| Columns.Examples | excel_mcp/utils.py:7 | A = 1, Z = 26, AA = 27, BC = 55, and column 27 is written AA. |
| Ranges.SplitOnce | excel_mcp/utils.py:34 | Unpacking `s.split(sep)` into two names succeeds exactly when `sep` occurs once. The parts then rebuild `s` and hold no `sep`. |
| Ranges.DecimalValue | excel_mcp/utils.py:36 | Defines `int` of a digit string: each digit after the first multiplies the value so far by ten and adds itself. |
| Ranges.RowOfDigits | excel_mcp/utils.py:36 | The row of a part is the number its digits spell, wherever letters and other characters sit among them. |
| Ranges.LeadingZerosIgnored | excel_mcp/utils.py:36 | Leading zeros do not change the row, as `int("007") == 7`. |
| Ranges.EntryVerdict | excel_mcp/utils.py:40-53 | Defines what the loop body does with one entry: skip it (no `!`, another sheet, no `:`), raise (a second `!` or `:`, or an end without digits), or compare the rows, then the columns. |
| Ranges.ScanEntries | excel_mcp/utils.py:39-55 | Defines the loop: the entries in order, returning at the first that holds the target or raises, and `False` at the end. |
| Ranges.WithinRanges | excel_mcp/utils.py:31-37 | Defines the whole call: the early `False`, the split of the target, its row and its column, then `ScanEntries`. |
| Ranges.JudgeEntry | excel_mcp/utils.py:40-53 | The loop body's branches compute the verdict `EntryVerdict` defines for one entry: skipped, raising, outside or inside. |
| Ranges.AddressWithinRanges | excel_mcp/utils.py:16-55 | The loop returns what `WithinRanges` defines, raising included. A target without `!`, or an empty list, gives `False`. |
| Ranges.ScanEntriesDecides | excel_mcp/utils.py:39-55 | The loop returns `True` iff some entry holds the target and every earlier entry was passed over. It raises iff an entry raises before any entry holds the target. Otherwise it returns `False`. |
| Ranges.WithinAreas | excel_mcp/utils.py:31-55 | For a canonical target and canonical ranges, the call never raises. It returns `True` exactly when some range is on the target's sheet and holds both its row and its column. |
| Ranges.ReversedAreaNeverContains | excel_mcp/utils.py:50-53 | A range whose start row or start column exceeds its end holds no cell. |
| Ranges.OtherSheetsNeverContain | excel_mcp/utils.py:42-44 | Ranges on other sheets never hold the target, whatever their bounds. |
| Ranges.TargetWithTwoSheetsRaises | excel_mcp/utils.py:31-34 | A target with two `!` raises once the list is non-empty. |
| Ranges.RowlessEntryRaises | excel_mcp/utils.py:45-49 | An entry on the target's sheet whose start or end has no digit raises when reached. |
| Ranges.AddressInsideCase | tests/test_utils.py:10-12 | `Sheet1!B2` lies in `["Sheet1!A1:C3", "Sheet2!D4:E5"]`. |
| Ranges.AddressOutsideCase | tests/test_utils.py:14-16 | `Sheet1!D1` does not lie in `["Sheet1!A1:C3"]`. |
| Ranges.SheetMismatchCase | tests/test_utils.py:18-20 | `Sheet2!A1` does not lie in `["Sheet1!A1:C3"]`. |
| ColumnContext.NullCellsInvisible | excel_mcp/utils.py:84 | A cell whose output is `None` is invisible to both scans: dropping it, unless it is the anchor, changes nothing that is collected. |
| ColumnContext.IsText | excel_mcp/utils.py:97-103 | Defines a text cell: no `formula` key, and an output `float` rejects (a text `isNumber` rejects, or `None`). A number or a formula cell is never text. |
| ColumnContext.StopsUp | excel_mcp/utils.py:91-106 | Defines the row where the upward scan ends: a valid cell that is the 100th from the anchor, or a text cell where the text count reaches `text_limit`. |
| ColumnContext.KeptUp | excel_mcp/utils.py:91 | Defines the rows the upward scan reaches: no row between them and the anchor ends it. |
| ColumnContext.StopsDown | excel_mcp/utils.py:115-128 | Defines the row where the downward scan ends: a valid cell that is the 10th below the anchor, or a text cell. |
| ColumnContext.KeptDown | excel_mcp/utils.py:115 | Defines the rows the downward scan reaches: no row between the anchor and them ends it. |
| ColumnContext.Collected | excel_mcp/utils.py:86-131 | Defines the keys of the result: the anchor when it is a cell, and the valid cells of the column that either scan reaches. |
| ColumnContext.MaxRow | excel_mcp/utils.py:112 | The result bounds the row of every valid cell and is the row of one of them. With no valid cell it is the default. |
| ColumnContext.ScanUpward | excel_mcp/utils.py:88-107 | The loop records exactly the valid cells of the column that the upward scan reaches, each with its output. A row is reached when no row between it and the anchor stops the scan (`KeptUp`). The scan stops at the 100th valid cell, or at the text cell where the never-reset text count reaches `text_limit`. |
| ColumnContext.ScanDownward | excel_mcp/utils.py:112-129 | The loop adds to what is already recorded exactly the valid cells of the column that the downward scan reaches, each with its output. The scan stops at the 10th valid cell or at the first text cell. Stopping at the last row holding any valid cell loses nothing. |
| ColumnContext.CollectColumnOutputs | excel_mcp/utils.py:58-131 | The keys are exactly the `Collected` ones: the anchor when it is a cell, plus the rows each scan reaches. Each value is that cell's output. Every key is in the anchor's column, and every key other than the anchor has a non-`None` output. `text_limit` defaults to 3. |
| ColumnContext.UpwardResult | excel_mcp/utils.py:91-106 | Where the upward loop ends decides its result. After it, the recorded rows are exactly the rows the scan reaches. |
| ColumnContext.DownwardResult | excel_mcp/utils.py:115-128 | Where the downward loop ends, by a stop or by passing the last valid row, decides its result. After it, the added rows are exactly the valid rows the scan reaches. |
| ColumnContext.UpwardAtMostCap | excel_mcp/utils.py:91-96 | From any recorded row up to the anchor there are at most 100 valid cells. |
| ColumnContext.UpwardTextBelowLimit | excel_mcp/utils.py:103-106 | Above a recorded row there are fewer text cells than `text_limit`, and none when `text_limit` is below 1. |
| ColumnContext.DownwardAtMostCap | excel_mcp/utils.py:115-120 | From the anchor down to any recorded row there are at most 10 valid cells. |
| ColumnContext.DownwardNoTextBefore | excel_mcp/utils.py:127-128 | No text cell lies between the anchor and a row the downward scan records. |
| ColumnContext.CountReachedFromAbove | excel_mcp/utils.py:96 | A count that grows one cell at a time takes every value up to its total at some valid row. This is why the cap of 100 is met exactly. |
| ColumnContext.CountReachedFromBelow | excel_mcp/utils.py:120 | The same for the downward count and its cap of 10. |
| ColumnContext.RecordedContents | excel_mcp/utils.py:93-95 | The cells recorded over a range of rows are the valid cells of the column in those rows, with their outputs. |
| ColumnContext.BasicScanExample | tests/test_utils.py:49-66 | From A4 with `text_limit=1`, every cell A1 to A5 is collected. The formula cell A3 is not text, and A5 ends the downward scan. |
| ColumnContext.CounterNotReset | excel_mcp/utils.py:103-106 | Anchor A5, text at A4, a number at A3, text at A2 and A1, `text_limit=2`. A2 is collected but A1 is not: the number does not reset the count. |

## Left out

- `excel_mcp/server.py` (the COM automation of Excel), `excel_mcp/db.py` (the DuckDB store), the event monitor and `examples/basic_usage.py` are not part of this model. They are I/O around the helpers.
- `gather_row_context` is imported by the tests but is not defined in `excel_mcp/utils.py`. It is not part of this model.
- Characters are ASCII. `str.isalpha`, `str.isdigit` and `str.upper` treat other Unicode letters and digits differently. Strings are sequences of characters, with no encoding.
- Python's `float()` parsing of a text output is the parameter `isNumber`. Whether a text such as `"1e3"` or `"nan"` parses is left to it.
- Cell outputs are `None`, a number or a text. Booleans and other Python values are not modelled. A missing `output` key is `Null`, as `dict.get` returns `None`.
- Cells are keyed by coordinates, not by address text. The model assumes the keys are canonical addresses (`A4`, not `a4` or `$A$4`).
- `coordinate_to_tuple` raises on a malformed address. The model instead requires the anchor, and the keys of the valid cells, to be well-formed positions: a row from 1 and a column from 1 to 18278 (ZZZ).
- `get_column_letter` raises outside 1 to 18278. `Columns.ColumnLetters` is defined on every natural, with the empty string for 0, and the model only applies it to well-formed columns.
- The insertion order of the result dictionary is not modelled. The result is a map.
- `ColumnContext.CollectColumnOutputs`: the source runs its two loops inline in one function. The model runs each in its own method, `ScanUpward` and `ScanDownward`, in the same order and on the same data.
- `ColumnContext.CollectColumnOutputs`: numbers are reals, and the model does not raise the `OverflowError` that `float()` raises (utils.py:99 and 123) for a Python int output beyond the float range. The source lets that error escape, since it catches only `ValueError` and `TypeError`; the model treats every `Number` as a number and returns a map.
- `ColumnContext.ScanUpward`: numbers are reals; the `OverflowError` that `float()` raises at utils.py:99 for an int output beyond the float range is not modelled, so such a cell counts as a number instead of ending the call with an error.
- `ColumnContext.ScanDownward`: numbers are reals; the `OverflowError` that `float()` raises at utils.py:123 for an int output beyond the float range is not modelled, so such a cell counts as a number instead of ending the call with an error.
- `Ranges.AddressWithinRanges` models `int()` on a digit string as its decimal value. Python's limit on the length of integer strings (`ValueError` past 4300 digits) is not modelled.
- `Ranges.WithinAreas`, `Ranges.ReversedAreaNeverContains` and `Ranges.OtherSheetsNeverContain` cover canonical texts on sheets whose name holds no `!`. This is deliberately weaker than the general behaviour; `Ranges.ScanEntriesDecides` states the general case.
