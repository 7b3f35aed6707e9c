# RCUK name badge maker — a verified model

`automatic_name_badge_maker.py` has two stages. It reads a CSV of event attendees and writes a Word document of name badges, 8 per page. This project models the two pieces of logic that sit between the file formats:

- **Row normaliser** (`process_csv`). Each CSV row holds the fields "First name of attendee", "Last name of attendee", "Organisation" and an optional "additional". Any field may pack several attendees separated by `;`. Each field is split on `;` and every piece is trimmed. A missing `additional` column becomes one empty annotation per first name. The four lists are padded with empty text to the longest one, then zipped into attendee records. The records are appended to one flat list in row order. A missing mandatory column aborts the run.
- **Badge layout** (`create_name_badges`). The attendees are walked in order. A grid of 4 rows by 2 columns is started at every multiple of 8, with a page break before every grid except the first. Attendee `i` goes to row `(i % 8) / 2` and column `(i % 8) % 2` of the current grid. Its cell holds a name line `"first last"` and an organisation line. A third line, in green RGB(0, 128, 0), is added only when the annotation is non-empty. Rendering is abstracted to layout events (`NewGrid`, `PageBreak`, `Place(position, lines)`) that a `Document` object records.

Files:

- `Text.dfy`: splitting on `;` (Python's `str.split(';')`), joining, and trimming (`str.strip()`).
- `Normalizer.dfy`: the attendee record, the specification functions for one row (`SplitColumns`, `PadColumns`, `Zip`, `RowAttendees`) and for the whole run (`Normalize`). It also holds the imperative `ProcessCsv` / `ProcessRow` / `AppendPadded` that mirror the source's loops and in-place `extend` / `append`, and the lemmas about them.
- `Layout.dfy`: grid positions and their inverse, the lines of a cell, and the event sequence `Events` as a specification. It also holds the `Document` class, the imperative `CreateNameBadges` loop, which keeps the current table in a reassigned local as the source does, and the lemmas about page counts, page breaks, injectivity and fill order.

Where the description of the system and the code differ, the model follows the code:

- A missing mandatory column raises Python's `KeyError`, which names the column but not the row. So `Error.MissingColumn` carries only the column name.
- The columns are looked up in the order first name, last name, organisation. The reported column is the first missing one in that order.
- The annotation is always text, empty when absent. It is never a separate "absent" value.
- The default annotation list has one entry per first name. It is built before the maximum length is taken, so it never exceeds the first-name count and never raises the record count (`MissingAdditional`).

## Model

| member | source | states |
|---|---|---|
| Text.Split | automatic_name_badge_maker.py:26 | splitting on `;` always gives at least one piece, and no piece contains `;` |
| Text.JoinSplit | automatic_name_badge_maker.py:26 | joining the pieces with `;` gives back the field, so splitting loses no text |
| Text.SplitJoin | automatic_name_badge_maker.py:26 | splitting a `;`-join of `;`-free pieces gives back those pieces (the other round trip) |
| Text.SplitLength | automatic_name_badge_maker.py:26 | a field has exactly one more piece than it has `;` characters |
| Text.TrimStart | automatic_name_badge_maker.py:26 | the result is a suffix of the input, everything dropped is whitespace, and it does not start with whitespace |
| Text.TrimEnd | automatic_name_badge_maker.py:26 | the result is a prefix of the input, everything dropped is whitespace, and it does not end with whitespace |
| Text.TrimSpec | automatic_name_badge_maker.py:26-32 | stripping keeps one contiguous slice of the input, drops only whitespace on both sides, and leaves no whitespace at either end |
| Text.TrimmedIsFixed | automatic_name_badge_maker.py:26-32 | a string with no whitespace at its ends is left unchanged by stripping |
| Text.TrimIdempotent | automatic_name_badge_maker.py:26-32 | stripping twice is the same as stripping once |
| Text.TrimKeepsSeparatorFree | automatic_name_badge_maker.py:26-32 | stripping a `;`-free piece cannot create a `;` |
| Normalizer.MaxLen | automatic_name_badge_maker.py:36 | `max_len` is at least each list's length and equal to one of them |
| Normalizer.ProcessCsv | automatic_name_badge_maker.py:20-52 | the row loop returns exactly `Normalize(rows)`: records of all rows appended in order, or the error of the first row that lacks a mandatory column |
| Normalizer.ProcessRow | automatic_name_badge_maker.py:26-51 | one pass of the row loop: the lookups in source order, split and trim, default annotations, then the padded records appended to the list so far |
| Normalizer.AppendPadded | automatic_name_badge_maker.py:36-51 | extending the four lists in place to `max_len` and appending one record per position gives the old list followed by the zip of the padded lists |
| Normalizer.NormalizeStopsAtError | automatic_name_badge_maker.py:24-28 | once a prefix of rows has failed, the whole run fails with that same error (no partial output) |
| Normalizer.PadSpec | automatic_name_badge_maker.py:39-42 | `extend([''] * (n - len))` reaches length `n`, keeps the original entries as a prefix, and adds only `''` |
| Normalizer.PaddedColumnsAgree | automatic_name_badge_maker.py:36-42 | after padding, all four lists have length `max_len` and start with their original entries |
| Normalizer.RowError | automatic_name_badge_maker.py:26-28 | a row fails if and only if a mandatory column is missing, and the error names the first missing one in lookup order |
| Normalizer.RowRecordCount | automatic_name_badge_maker.py:26-44 | a row yields exactly the maximum of its four piece counts as records (first-name count for an absent `additional`), and at least one |
| Normalizer.RowRecordCountBySeparators | automatic_name_badge_maker.py:26-44 | a row yields one more record than the largest number of `;` in any present column |
| Normalizer.RowRecordFields | automatic_name_badge_maker.py:26-51 | the k-th record of a row has, in each field, the trimmed k-th piece of that column, or `''` when the column has fewer pieces or `additional` is absent |
| Normalizer.MissingAdditional | automatic_name_badge_maker.py:31-36 | without an `additional` column every annotation is `''` and the count is the max of the three mandatory piece counts |
| Normalizer.PieceOrClean | automatic_name_badge_maker.py:26-32 | each padded entry is trimmed and contains no `;` |
| Normalizer.RowRecordsClean | automatic_name_badge_maker.py:26-51 | every record of a row has trimmed, `;`-free fields |
| Normalizer.NormalizeSnoc | automatic_name_badge_maker.py:24-51 | one more row succeeds exactly when the earlier rows and it do, and adds its records at the end |
| Normalizer.NormalizeSpec | automatic_name_badge_maker.py:21-51 | the run succeeds if and only if every row has its mandatory columns, and then yields the rows' records concatenated in row order |
| Normalizer.NormalizeFirstError | automatic_name_badge_maker.py:24-28 | a failed run reports the error of the first row that lacks a column |
| Normalizer.NormalizeAppend | automatic_name_badge_maker.py:21-51 | the attendee list is only appended to: the run over `a + b` is the records of `a` followed by those of `b` |
| Normalizer.NormalizeRecords | automatic_name_badge_maker.py:24-51 | a successful run yields at least one record per row, and every record is clean |
| Layout.RowIndex | automatic_name_badge_maker.py:84 | the row index is in `[0, 4)` |
| Layout.ColIndex | automatic_name_badge_maker.py:85 | the column index is in `[0, 2)` |
| Layout.IndexOfPositionOf | automatic_name_badge_maker.py:84-85 | every attendee lands inside the 4x2 grid, and `8 * page + 2 * row + col` recovers its index |
| Layout.PositionOfIndexOf | automatic_name_badge_maker.py:84-85 | every cell of every page is the position of the index `8 * page + 2 * row + col`, so the fill leaves no gaps |
| Layout.PositionInjective | automatic_name_badge_maker.py:84-85 | two attendees with the same (page, row, column) are the same attendee |
| Layout.FillOrder | automatic_name_badge_maker.py:84-85 | within a page, a later attendee is in a later row, or in the same row further right |
| Layout.CellLines | automatic_name_badge_maker.py:109-131 | a cell has the line `first + " " + last` at 18 pt and then the organisation at 14 pt; it has a third, green (0, 128, 0) line with the annotation if and only if the annotation is non-empty, and only that line is green |
| Layout.PagesStep | automatic_name_badge_maker.py:74-77 | the page count grows by one exactly at a multiple of 8, and the page of an index stays the same until the next multiple of 8 |
| Layout.GridStartCounts | automatic_name_badge_maker.py:74-77 | an index starts one grid exactly when it is a multiple of 8, preceded by one page break only when it is not 0 |
| Layout.BadgeEventsCounts | automatic_name_badge_maker.py:73-131 | one loop pass adds the grid and page break of `GridStartCounts` and places exactly one badge |
| Layout.EventsSpec | automatic_name_badge_maker.py:73-131 | for K attendees, exactly `ceil(K/8)` grids and `ceil(K/8) - 1` page breaks (none for K = 0), and badge i is placed, in order, at `PositionOf(i)` with `CellLines(attendee i)` |
| Layout.EventsShape | automatic_name_badge_maker.py:73-77 | a non-empty run opens with a grid, and every page break is immediately followed by a new grid |
| Layout.Document.constructor | automatic_name_badge_maker.py:55 | a new document has no events and no tables |
| Layout.Document.AddPageBreak | automatic_name_badge_maker.py:76 | appends one page break and adds no table |
| Layout.Document.AddTable | automatic_name_badge_maker.py:77-82 | appends one 4x2 grid and returns the new table's number, one past the previous count |
| Layout.Document.FillCell | automatic_name_badge_maker.py:87-131 | fills an existing cell of an existing table, appending exactly one placement |
| Layout.CreateNameBadges | automatic_name_badge_maker.py:54-133 | the loop builds a fresh document whose events are exactly `Events(attendees)` and that holds `ceil(K/8)` tables; the reassigned `table` is always the grid `i / 8` |
| Layout.NoAttendees | automatic_name_badge_maker.py:73-77 | with no attendees there are no events, grids or page breaks |
| Layout.PlacementsDistinct | automatic_name_badge_maker.py:73-87 | there is one placement per attendee, every placement is inside the grid, and no two placements share a cell |
| Layout.NineAttendees | automatic_name_badge_maker.py:73-87 | nine attendees give two grids and one page break; the first eight badges are on page 0, and the ninth is on page 1 at row 0, column 0 |

## Left out

- CSV reading: opening the file, the UTF-8 BOM, quoting and header parsing (`csv.DictReader`, lines 22-24). The model starts from a sequence of rows, each a map from column name to field text.
- Short CSV rows: `DictReader` fills missing trailing fields with `None`, and `.split` on `None` raises. The model treats every present field as text.
- All python-docx rendering: margins, table and cell widths in cm, nested logo/text tables, picture embedding, font boldness and alignment, and `document.save` (lines 55-63, 78-82, 88-107, 113-131, 133). Only the grid shape, line texts, font sizes and the annotation colour are kept as plain values in the events.
- Loading the logo image and its failure modes (line 102). This is asset I/O; every placement stands for one logo plus the text lines.
- The command-line driver (`argparse` and `__main__`, lines 135-143).
- Text.TrimStart: `str.strip()` removes Unicode whitespace. The model trims an explicit ASCII set: tab, line feed, vertical tab, form feed, carriage return, U+001C-U+001F and space. Non-ASCII whitespace is kept.
- The text of the `KeyError` message is not modelled; only the missing column's name is kept.
