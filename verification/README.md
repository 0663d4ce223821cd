# Allotment spreadsheet extractor — verified model of the segmentation core

ExcelData_Extract turns an uploaded allotment spreadsheet (Excel or CSV) into a
JSON document. The sheet has no fixed layout. It may start with a few
"key, value" lines such as `Project | Riverside Phase 2`, followed by one or
more tables. Each table begins with a header row like `S.No | Name | Plot No`.
The extractor finds these parts with three heuristics:

- **Cell normalisation (`format_cell`).** Every cell is shown as stripped text.
  Absent values and the spellings `nan` / `none`, in any case, become `""`.
  Timestamps are shown as `DD-MM-YYYY`.
- **Header information.** Any row with exactly two raw non-empty cells adds a
  `key -> value` pair. Rows are scanned in order, so a later pair overwrites an
  earlier pair with the same key.
- **Table blocks.** A row is a table header when:
  - some normalised, lower-cased cell contains `name`;
  - some cell contains `no`;
  - at least three cells are non-empty.

  Each table header starts a block that ends at the next table header or at the
  end of the sheet. The block's first row gives the field names. Every later row
  gives a record, built from the non-empty name/value pairs in column order,
  with the last column winning on a repeated name. Rows without a field, and
  blocks without a record, are dropped.

The result holds three things: `Header Information`, `Allottee Tables` (each
table with its start row and its records), and the message
` Extracted N table(s) from the file.`. A failure while reading the file
produces the message-only document ` Error extracting data: ...` instead.

The model has four modules, one file each:

- `strings.dfy` (`Strings`): Python's `strip`, `lower`, the `in` substring test
  and decimal rendering. Each comes with its reference meaning.
- `cells.dfy` (`Cells`): the cell datatype, `format_cell` and the raw
  non-emptiness test `str(cell).strip()`.
- `rows.dfy` (`Rows`): the two row classifiers, `is_potential_table_header` and
  the two-cell header-entry test.
- `extraction.dfy` (`Extraction`): the body of `extract_excel` after the file is
  loaded. Specification functions on values (`HeaderInfoOf`, `Positions`,
  `RecordOf`, `RowRecords`, `NonEmptyTables`, `ExtractGrid`) come with lemmas
  on what they mean. Methods with the source's loops (`CollectHeaderInfo`,
  `FindTableHeaders`, `BuildRecord`, `BuildBlock`, `ExtractTables`,
  `ExtractExcel`) are proved equal to those functions.

Two behaviours of the code are easy to miss, and the model keeps both:

- Both messages begin with a space (`" Extracted …"`, `" Error extracting data: …"`).
- The header-information scan covers every row, including the data rows inside
  table blocks, so a data row with exactly two non-empty cells also enters the
  header information. Take a sheet with the lines `Project | Riverside Phase 2 |`,
  `S.No | Name | Plot No`, `1 | Arjun Rao | P-101` and `2 | | P-102`. Its header
  information is `"Project" -> "Riverside Phase 2"` and also `"2" -> "P-102"`.
  `Extraction.DataRowEntersHeaderInformation` proves this for that grid.

## Model

| member | source | states |
|---|---|---|
| Strings.Trim | app.py:12-16 | the stripped text has no whitespace (Python `isspace`) at either end |
| Strings.TrimStrips | app.py:16 | `strip` cuts whitespace, and only whitespace, from the two ends: the result is a slice of the input whose outside characters are all whitespace |
| Strings.TrimIdempotent | app.py:16 | stripping stripped text changes nothing |
| Strings.LowerMeaning | app.py:12 | `lower()` on ASCII: same length, no capital left, each capital replaced by its small letter and every other character kept |
| Strings.Contains | app.py:22-23 | Python's `w in s` holds exactly when `w` occurs at some position of `s` |
| Strings.Padded | app.py:15 | the `%d`/`%m`/`%Y` field is exactly `width` decimal digits that denote the number |
| Strings.NatToDecimal | app.py:80 | `str(n)` is a non-empty run of digits that denotes `n`, with no leading zero |
| Cells.IsNullWord | app.py:12 | no contract of its own; `Cells.FormatCell` states that no display string is a null spelling, and `Cells.FormatCellMeaning` that text becomes `""` exactly when its strip is blank or a null spelling |
| Cells.RawNonEmpty | app.py:41 | no contract of its own; `Cells.FormatCell` states that a cell with a non-empty display string passes this raw test, and `Rows.NullSpellingMakesEmptyKey` that the converse fails |
| Cells.FormatDate | app.py:15 | `strftime("%d-%m-%Y")` is ten characters with dashes at 2 and 5, and its three digit fields read back as day, month and year |
| Cells.FormatCell | app.py:11-16 | a display string has no edge whitespace, and a non-empty one is never a null spelling and comes from a raw non-empty cell |
| Cells.FormatCellMeaning | app.py:11-16 | absent gives `""`; text gives `""` exactly when it is blank or a null spelling once stripped, and otherwise its strip; a timestamp gives its `DD-MM-YYYY` form |
| Cells.FormatCellIdempotent | app.py:64 | normalising a display string again gives the same string, so re-normalising column names is harmless |
| Rows.CountFormatted | app.py:24 | no contract of its own; `Rows.CountFormattedAtMostRaw` bounds it by the raw count, and `Rows.CountFormattedAll` states it equals the row length when every cell displays something |
| Rows.CountFormattedAtMostRaw | app.py:24 | a row has at least as many raw non-empty cells (the header scan's test) as non-empty display strings (the table-header test) |
| Rows.AnyCellContains | app.py:20-23 | true exactly when some cell's lower-cased display string contains the word |
| Rows.IsTableHeader | app.py:18-25 | a table-header row has at least three raw non-empty cells |
| Rows.HeaderValues | app.py:41 | no contract of its own; `Rows.HeaderValuesCount` states that its length is the raw count, and `Rows.HeaderEntryMeaning` which two display strings it holds when that count is two |
| Rows.HeaderValuesCount | app.py:41-42 | the header scan's list of values has one entry per raw non-empty cell |
| Rows.HeaderEntry | app.py:42-43 | no contract of its own; `Rows.HeaderEntryMeaning` states when it gives a pair and which pair |
| Rows.HeaderEntryMeaning | app.py:41-44 | a row is a header entry exactly when two of its cells are raw non-empty, and the pair is then those two cells' display strings, left to right |
| Rows.TableHeaderIsNotHeaderEntry | app.py:41-42 | a table-header row never adds header information |
| Rows.NullSpellingMakesEmptyKey | app.py:41-44 | a `None` cell passes the raw test but displays as `""`, so a header entry can have an empty key |
| Rows.PlainTextDisplays | app.py:16 | text without edge whitespace that is not a null spelling displays as itself |
| Rows.SerialNameRowIsTableHeader | app.py:18-25 | `S.No, Name, Plot, Area` is a table header |
| Rows.TwoCellRowIsNotTableHeader | app.py:24 | no two-cell row is a table header |
| Rows.NoteSurnameRowIsTableHeader | app.py:22-23 | the substring test also accepts `Note, Surname, Remarks`, since `no` is in `note` and `name` is in `surname` |
| Extraction.FillNa | app.py:37 | the filled grid has the same shape and no absent value; an absent cell becomes `""`, which the header scan sees as blank; every present cell is kept and no display string changes |
| Extraction.HeaderInfoOf | app.py:39-44 | no contract of its own; `Extraction.HeaderInfoLastWins` states which keys it holds and which value each key has |
| Extraction.HeaderInfoLastWins | app.py:39-44 | every header entry of any row puts its key in the header information, and each key maps to the value of the last row with that key |
| Extraction.DataRowEntersHeaderInformation | app.py:39-44 | on the four-row sheet shown above (a project line, a table header, two data rows) the header information is `{"Project": "Riverside Phase 2", "2": "P-102"}` |
| Extraction.CollectHeaderInfo | app.py:39-44 | the scan loop yields the header information of the whole grid |
| Extraction.Positions | app.py:46-49 | the collected indices increase strictly, are in range, and are exactly the rows that satisfy the test |
| Extraction.FindTableHeaders | app.py:46-49 | the scan loop yields the indices of all table-header rows in increasing order |
| Extraction.BlockEnd | app.py:53 | a block ends after its start row and no later than the end of the grid |
| Extraction.BlocksPartition | app.py:52-55 | blocks are disjoint and cover exactly the rows from the first table header to the end; with no table header there is no block |
| Extraction.ColumnNames | app.py:56 | no contract of its own; `Extraction.RecordOfMeaning` states the records in terms of the header cells' display strings |
| Extraction.Assemble | app.py:62-67 | no contract of its own; `Extraction.AssembleMeaning` states its keys and values |
| Extraction.RecordOf | app.py:62-67 | no contract of its own; `Extraction.RecordOfMeaning` states its fields in terms of the header and data cells |
| Extraction.AssembleMeaning | app.py:62-67 | a record has only non-empty names and values; a name is present exactly when a pair stores it, with the value of the last such pair |
| Extraction.RecordOfMeaning | app.py:56-67 | the record of a data row holds a field exactly when a header column names it and the row has a non-empty value under it; with a repeated name the last such column wins |
| Extraction.RowRecords | app.py:60-69 | no contract of its own; `Extraction.RowRecordsInRowOrder` states which records it holds and in which order |
| Extraction.BuildRecord | app.py:62-67 | the column loop yields the record of the row |
| Extraction.RowRecordsInRowOrder | app.py:60-69 | a block's records are the records of its rows that yield a field, one per row, in row order |
| Extraction.BuildBlock | app.py:55-69 | the row loop yields the records of the block's data rows under the names from its first row |
| Extraction.BlockRecords | app.py:55-58 | no contract of its own; `Extraction.BuildBlock` computes it, and `Extraction.RowRecordsInRowOrder` states which records it holds |
| Extraction.BlockTable | app.py:71-75 | no contract of its own; the table of one block: its start row and `Extraction.BlockRecords` up to `Extraction.BlockEnd` |
| Extraction.BlockTables | app.py:51-53 | no contract of its own; one `Extraction.BlockTable` per table-header row, in order; `Extraction.ExtractedTablesAreBlocks` and `Extraction.ExtractGridMeaning` relate it to the document |
| Extraction.NonEmptyTables | app.py:71-75 | no contract of its own; `Extraction.NonEmptyTablesMeaning` states which tables it keeps and that their order is kept |
| Extraction.NonEmptyTablesMeaning | app.py:71-75 | the kept tables are exactly the tables with records, and their start rows still increase |
| Extraction.SuccessMessage | app.py:80 | the message is ` Extracted `, digits, ` table(s) from the file.`, and the digits read back as the table count |
| Extraction.ErrorMessage | app.py:84 | the message is the fixed prefix ` Error extracting data: ` followed by the exception's text, which can be read back from it |
| Extraction.ExtractGrid | app.py:39-81 | no contract of its own; `Extraction.ExtractGridMeaning` states its tables and message, and `Extraction.HeaderInfoLastWins` its header information |
| Extraction.ExtractGridMeaning | app.py:46-81 | every table starts at a table-header row, has records and comes in increasing row order; every block with records is present; the message counts the tables |
| Extraction.ExtractedTablesAreBlocks | app.py:51-75 | conversely, every table of the document is one of the blocks' tables (`BlockTables`: block by block, its start row and the records of its rows), so no table comes from anywhere else |
| Extraction.ExtractTables | app.py:39-81 | the three scans produce the document `ExtractGrid` describes |
| Extraction.ExtractExcel | app.py:37-84 | a read failure gives, and is the only thing that gives, the message-only document carrying the error text; otherwise the grid is filled and then extracted |

## Left out

- The Streamlit page (app.py lines 1-9 and 86-97): upload widget, spinner, JSON preview and the download button. These are user interface, outside the core.
- Reading the file (app.py lines 29-35). `pd.read_csv` / `pd.read_excel`, the choice by file extension and the skipping of malformed CSV lines are not modelled. The model starts from their outcome, `Loaded`: either a grid of cells or the text of the exception raised.
- JSON serialisation of the result: this is done by the interface code, not the core.
- Number cells are carried as the text `str()` gives them (`Text`). Float formatting is not modelled.
- Timestamps keep only day, month and year, which is all `%d-%m-%Y` shows. The raw test sees them as non-empty, which holds for any timestamp.
- `Strings.Lower` only maps ASCII letters. Python's full Unicode lower-casing is not modelled. It cannot add or remove the letters of `name`, `no`, `nan` or `none`, so no decision in the model depends on it.
- Exceptions other than a read failure are not modelled. Nothing in the modelled core raises for the cells it is given.
- The in-place frame updates (`fillna(inplace=True)`, assigning `sub_df.columns`, `reset_index`) are modelled on values. A block is a slice of the grid, and its names are a separate sequence.
- Python dictionaries keep insertion order, which becomes the key order of "Header Information" and of each record in the JSON. The model's `map` has no order. Nothing in the core depends on that order.
- Rows shorter than the block's first row read as blank cells under the missing columns, as in the rectangular frame pandas builds.
