# PDF ↔ Excel reconciliation engine, modelled in Dafny

The system compares a data table extracted from a PDF with a sheet read from
an Excel workbook and reports where they disagree. This project models its
structured-comparison core, `compare_app.py`:

- **Column matching** (`match_columns`). Exactly shared column names are
  paired with themselves. When no name is shared exactly, each side is indexed
  by lower-cased name, and a later name with the same key replaces an earlier
  one. Every key found on both sides then pairs the Excel original with the PDF
  original. The correspondence is a set of (Excel name, PDF name) pairs, so the
  set returned by the exact pass and the dict returned by the fallback have one
  shape (module `Matching`).
- **Positional comparison and aggregation** (`compare_dataframes_smart`). For
  each matched pair, both columns are padded with `""` to the longer length and
  compared position by position with exact string equality. A record
  (row, Excel value, PDF value, Excel-side column name) is kept for each
  differing position. The per-pair record lists are concatenated (module
  `Compare`).
- **Header promotion** of each extracted table: a table of more than one row
  takes row 0 as its labels, a shorter one keeps the positional ids
  `0 .. k-1` (module `Tables`).
- **Excel text flattening**: every cell in row-major order, joined with `'\n'`
  (module `Frames`).
- **Cell stringification** of absent values, as written and as intended
  (module `Values`, see Findings).

Python iterates the matched pairs in set/dict order, which depends on string
hashing. The model therefore takes that order as data: `Compare.Report` is
defined for any enumeration `order` of the matched pairs. `Compare.CompareSmart`
picks one arbitrarily and returns it with the report. `Compare.ReportPermutation`
shows that the enumeration only changes the order of the records, never the
records themselves.

Frames (`Frames.Frame`) hold distinct string column names and a column per
name. Their cells are strings that have already been stringified. Case folding
(`Text.Lower`) covers the ASCII letters only.

The `fillna("")` call at compare_app.py:37-38 shows that absent values are
meant to compare as the empty string. Because it runs after `astype(str)`, it
never applies under pandas before 3.0, where that conversion turns absent
values into the words "nan" and "None". The model follows the code:
comparison cells are given strings. The consequence is recorded under
Findings. There, `Values.Normalize` is the intended stringification (absent
values become "", text is kept), and `Values.CompareValues` compares raw
values through it.

## Model

| member | source | states |
|---|---|---|
| Matching.MatchColumns | compare_app.py:24-31 | when some column name is shared exactly, the correspondence is exactly the shared names, each paired with itself (the case-insensitive pass plays no part) |
| Matching.LowerIndexKeys | compare_app.py:27-28 | the lower-cased index of a side has a key exactly for every lower-cased name on that side |
| Matching.LowerIndexLast | compare_app.py:27-28 | each key of the index maps to the last name on its side whose lower-cased form is that key (later duplicates win) |
| Matching.MatchFallbackSound | compare_app.py:26-30 | without an exact overlap, every pair joins an Excel name and a PDF name equal up to case, each the last name on its side with that key |
| Matching.MatchFallbackComplete | compare_app.py:26-30 | without an exact overlap, every lower-cased name present on both sides yields a pair, and only one |
| Matching.MatchFunctional | compare_app.py:24-31 | an Excel column is paired with at most one PDF column, in both passes |
| Matching.MatchEmpty | compare_app.py:24-31 | the correspondence is empty exactly when no Excel name equals any PDF name even up to case |
| Compare.Pad | compare_app.py:39-41 | padding reaches the requested length, keeps the original cells in their positions and fills every added position with "" |
| Compare.MismatchesFrom | compare_app.py:42 | the records of padded columns from a position on are in strictly ascending row order, each carries the two differing cells at its row, and every differing row is recorded |
| Compare.ColumnMismatches | compare_app.py:37-44 | a pair's records lie below the longer length, take the Excel value from the Excel column and the PDF value from the PDF column (or "" past its end), carry the Excel-side name, ascend by row, and a row is recorded exactly when the padded cells differ |
| Compare.ColumnMismatchesEmpty | compare_app.py:42-43 | a pair gives no records exactly when its padded columns agree at every position |
| Compare.ColumnMismatchesMember | compare_app.py:39-44 | a record belongs to a pair's records exactly when it is the record the pair owes at a differing position |
| Compare.FlaggedSize | compare_app.py:42 | records in ascending row order mention as many distinct rows as there are records (no duplicate rows) |
| Compare.SingleDifference | compare_app.py:39-44 | columns that differ at one padded position only give exactly one record, for that position |
| Compare.ReportAppend | compare_app.py:45-46 | the report of two enumerations laid end to end is the two reports laid end to end |
| Compare.ReportMember | compare_app.py:36-46 | a record is in the report exactly when it is a record of one of the enumerated pairs |
| Compare.ReportRecords | compare_app.py:33-46 | a record is in the report exactly when some enumerated pair owes it at a differing padded position |
| Compare.ReportEmpty | compare_app.py:43-46 | the report is empty exactly when every enumerated pair gives no records |
| Compare.ReportRemove | compare_app.py:36-46 | taking one pair out of the enumeration takes exactly that pair's records out of the report |
| Compare.ReportPermutation | compare_app.py:36 | two enumerations of the same pairs give reports with the same records, counted with multiplicity |
| Compare.MatchedColumnsExist | compare_app.py:34-38 | every matched pair names an existing Excel column and an existing PDF column |
| Compare.CompareSmart | compare_app.py:33-46 | the pairs visited are exactly the correspondence, each visited once, and the report is the concatenation of their records in visiting order; an empty correspondence gives an empty report |
| Tables.Promote | compare_app.py:15-18 | a table of more than one row takes row 0 as labels and keeps the remaining n-1 rows, in order, as body; a shorter table keeps positional ids as wide as its row and its rows as body; every body row is as wide as the column ids |
| Tables.PromoteRestore | compare_app.py:15-18 | promotion loses nothing: putting the labels back on top of the body rebuilds the raw table |
| Frames.CellsLength | compare_app.py:81 | the flattened cells number rows times columns |
| Frames.CellAt | compare_app.py:81 | the cell in row i and column j is item i * width + j of the flattened cells (row-major order) |
| Frames.FlattenLines | compare_app.py:81 | when no cell holds a '\n', splitting the text block at every '\n' (and only there) gives back exactly the flattened cells |
| Frames.FlattenEmpty | compare_app.py:81 | a sheet without rows or without columns flattens to the empty text |
| Text.SplitJoin | compare_app.py:81 | splitting a join of separator-free parts at that separator gives the parts back |
| Scenarios.ChangedCell | compare_app.py:39-44 | ["Alice","Bob"] against ["Alice","Bobby"] in column "Name" gives the single record (1, "Bob", "Bobby", "Name") |
| Scenarios.CaseOnlyDifference | compare_app.py:26-30 | "Total" against "total" is matched by the fallback as ("Total", "total"), and equal cells give no records |
| Scenarios.LastDuplicateWins | compare_app.py:27-30 | Excel names "Total" and "TOTAL" against PDF "total" give only ("TOTAL", "total") |
| Scenarios.ShorterColumn | compare_app.py:39-44 | ["1","2","3"] against ["1","2"] gives the single record (2, "3", "", "X") |
| Scenarios.NoSharedColumns | compare_app.py:24-31 | names "A" and "B" give an empty correspondence |
| Values.AsWrittenBlanksDiffer | compare_app.py:37-38 | as written (pandas before 3.0), a blank Excel cell facing an absent (None) PDF cell is reported as "nan" against "None" |
| Values.AsWrittenBlankAgainstEmpty | compare_app.py:37-38 | as written (pandas before 3.0), a blank Excel cell facing an empty PDF cell is reported as "nan" against "" |
| Values.CompareValues | compare_app.py:37-44 | with the intended stringification, no record is produced at a position where both sides are absent |
| Values.AbsentMatchesAbsent | compare_app.py:37-44 | with the intended stringification, a record with an absent value on one side has non-empty text on the other |
| Values.IntendedBlanksAgree | compare_app.py:37-44 | with the intended stringification, a blank Excel cell gives no record against either an absent or an empty PDF cell |

## Left out

- Streamlit UI, progress bar, spinner, uploads, the download button, CSV encoding and `color_data_diff` (compare_app.py:11, 54-104): presentation and I/O.
- Frames.FlattenLines: the program reads the text block back with `splitlines()` (compare_app.py:50), which also breaks at '\r', '\x0b', '\x0c', '\x1c'-'\x1e', '\x85', '\u2028' and '\u2029' and drops a trailing empty line; the lemma is about splitting at '\n' only.
- PDF page and table extraction with `pdfplumber`, the page-text join, and `pd.read_excel` (compare_app.py:9-13, 20, 80): foreign libraries whose source is not available; the model starts from their outputs.
- Row stacking of the extracted tables with `pd.concat` (compare_app.py:21): library behaviour (column union, filling absent cells); the PDF frame is taken as given.
- `make_html_diff` (compare_app.py:48-52): a thin wrapper over `difflib.HtmlDiff`, whose matching and HTML output are library code.
- Text.Lower: folds only the ASCII letters; Python's `str.lower` also folds other Unicode letters.
- Frames.Valid: column names are strings and distinct. With non-string names the fallback's `.lower()` raises, and with duplicate names `df[col]` returns a frame instead of a column.
- Tables.Promote: requires every raw row to have the same width. For ragged rows pandas pads or raises, which is library behaviour. Null header cells are not modelled: labels are strings.
- Compare.ColumnMismatches: row positions are taken as the frames' index labels. This holds because the spreadsheet frame and the stacked PDF frame both carry the default index 0..n-1.
- Compare.CompareSmart: it returns the visiting order, which Python fixes by string hashing; the report is stated for that order, and `Compare.ReportPermutation` states what is common to all orders.
- Values.AsWrittenCell: general stringification of numbers, dates and other scalars (`astype(str)`) is not modelled; only text and the two absent markers are.

## Findings

| source | as written | input that shows it | evidently intended | confidence | as-written member | corrected member |
|---|---|---|---|---|---|---|
| compare_app.py:37-38 | `astype(str)` runs before `fillna("")`; under pandas before 3.0 the conversion turns absent cells into the words "nan" (NaN) and "None" (None), so the fill never applies (pandas 3.0's default string dtype keeps them missing, and there the fill does apply) | pandas before 3.0: a blank Excel cell ("nan") facing a blank PDF cell ("" for an empty cell, "None" for a cell missing from the extractor's grid) in the same row of a matched column is reported as a mismatch | absent values compare as "" (fill before converting), so blanks on both sides agree | medium; depends on the pandas version; not executed | Values.AsWrittenBlanksDiffer | Values.CompareValues |
