# Sheet extraction and external-link footnotes, modelled in Dafny

This project models two document-pipeline components of a Haystack custom-component package.

**`PandasExcelToDocument`** turns spreadsheet sources into documents.

- Its `run` loop takes the sources in order, each with its caller metadata.
- A source whose bytes cannot be obtained, or whose table extraction raises, is skipped, and the loop moves on.
- Every other source yields one document. The document's text is the first extracted table text. Its metadata is the byte stream's metadata with the caller's metadata laid over it.
- Table extraction (`_extract_tables`), as written, asks pandas for every sheet (`sheet_name=None`). The result is a mapping from sheet names to frames, and the `.dropna` call on it raises, so extraction always fails (see "Findings"). The model keeps this as-written version as `ExcelConverter.ExtractTables`.
- The corrected extraction, `ExcelConverter.ExtractAllSheets`, loads every sheet, as line 83's comment says. It applies the steps of lines 87-91 to each sheet: it drops every all-NaN column, then every all-NaN row, and writes what is left as CSV with no header line and no index column. It returns one text per sheet, in workbook order, matching the `List[str]` result. `run` uses only `tables[0]`, the first sheet's text; the TODO at line 63 would make one document per sheet.
- A one-sheet reading (`sheet_name=0`, pandas' default) is modelled too, as `ExcelConverter.ExtractFirstSheet`. `ExcelConverter.ConvertAllSheets` proves that `run` gives the same documents under both readings, except when a readable source parses into a workbook without sheets: all-sheets extraction then returns no tables and `run` raises on `tables[0]`, while the one-sheet reading fails inside extraction and the source is skipped.

**`ExternalLinkAdder.run`** adds footnotes to answers.

- For every answer, it looks up each entry of the `_references` metadata in the answer's own documents. The first document whose `id` equals the entry's `document_id` wins. An entry that matches nothing is dropped.
- It collects the `src_url` of each matched document.
- It appends the footnotes `"\n\n[Ext n](url)"`, numbered 1, 2, … in reference order, to the answer's text in place.

Layout:

- `sheet_trim.dfy` (module `SheetTrim`): the sheet as a rectangular `Table` of `Option<string>` cells, where `None` is a NaN cell, and the two `dropna` steps as functions. Lemmas state which columns and rows survive, that order and values are kept, that the result is dense, and that trimming is idempotent.
- `csv_render.dfy` (module `CsvRender`): `to_csv(header=False, index=False)` as a function. Its partner is `Split`, Python's `str.split`. The lemmas read the rendered text back into lines and fields.
- `excel_converter.dfy` (module `ExcelConverter`): the extraction step as written, corrected to all sheets, and read as one sheet, the per-source step, and `run` as a loop method proved equal to the specification function `Convert`.
- `link_adder.dfy` (module `LinkAdder`): the `Answer` class with its mutable `data` field. The nested loops, the footnote loop and `run` are methods, each proved against a specification function.
- `decimal.dfy` (module `Decimal`): Python's `str` on the footnote number.
- `indexing.dfy` (module `Indexing`): increasing index sequences.
- `wrappers.dfy` (module `Wrappers`): `Option` and `Result`.
- `metadata.dfy` (module `Metadata`): the metadata map type both components share.

Some behaviour worth noting:

- `dropna` drops a column or row only when every cell in it is NaN. It does not itself treat an empty string as missing, so a `Some("")` cell that reaches it is non-empty. Which spreadsheet values become NaN is decided earlier, by the parser (see "Left out").
- Columns are dropped before rows, as the code does. The model also proves that the order makes no difference: a dropped column holds only NaN, so it can never make a row non-empty (`SheetTrim.TrimOrderImmaterial`).
- The footnote has no display name, and there is no spreadsheet anchoring. The code has neither.

## Model

| member | source | states |
|---|---|---|
| `SheetTrim.TrimKeeps` | src/dc_custom_component/components/converters/excel_converter.py:86-88 | A column survives iff it is not all NaN. A row survives iff it is not all NaN. Survivors keep their original relative order, and every surviving cell equals the original cell at its original row and column. The result is rectangular. |
| `SheetTrim.RowEmptyAfterColumnDrop` | src/dc_custom_component/components/converters/excel_converter.py:87-88 | The row test runs after the column drop, on the surviving columns only. There it gives the same answer as on the full row. |
| `SheetTrim.ColumnEmptyAfterRowDrop` | src/dc_custom_component/components/converters/excel_converter.py:87-88 | Dropping empty rows does not change which columns are all NaN. |
| `SheetTrim.TrimLeavesNoEmptyColumn` | src/dc_custom_component/components/converters/excel_converter.py:87 | No column of the trimmed table is all NaN, even after the row drop that follows the column drop. |
| `SheetTrim.TrimLeavesNoEmptyRow` | src/dc_custom_component/components/converters/excel_converter.py:88 | No row of the trimmed table is all NaN. |
| `SheetTrim.TrimLeavesDenseTable` | src/dc_custom_component/components/converters/excel_converter.py:87-88 | A table with no all-NaN row or column is returned unchanged. |
| `SheetTrim.TrimIdempotent` | src/dc_custom_component/components/converters/excel_converter.py:87-88 | Trimming a trimmed table changes nothing. |
| `SheetTrim.TrimOrderImmaterial` | src/dc_custom_component/components/converters/excel_converter.py:87-88 | Columns then rows gives the same table as rows then columns. |
| `CsvRender.SplitJoin` | src/dc_custom_component/components/converters/excel_converter.py:91 | Splitting a comma-joined line on commas gives back its fields, when no field holds a comma. |
| `CsvRender.SplitTerminated` | src/dc_custom_component/components/converters/excel_converter.py:91 | Splitting newline-terminated lines on newlines gives back the lines, followed by one empty piece. |
| `CsvRender.RenderCsvLines` | src/dc_custom_component/components/converters/excel_converter.py:91 | The CSV text has exactly one line per row and no header line. Each line holds exactly its row's cells, one field per column and no index field, with NaN written as the empty string. |
| `CsvRender.RenderTrimmed` | src/dc_custom_component/components/converters/excel_converter.py:86-91 | The text produced for a sheet has one line per surviving row. Line m holds exactly the surviving cells of the m-th surviving row, in original column order. |
| `ExcelConverter.ExtractTables` | src/dc_custom_component/components/converters/excel_converter.py:80-88 | As written, extraction always raises: parsing fails, or `.dropna` is called on the mapping of sheet names to frames. |
| `ExcelConverter.ExtractAllSheets` | src/dc_custom_component/components/converters/excel_converter.py:80-92 | The corrected extraction succeeds iff the bytes parse. It then returns one text per sheet, in workbook order: that sheet, trimmed and rendered. |
| `ExcelConverter.ExtractFirstSheet` | src/dc_custom_component/components/converters/excel_converter.py:80-92 | The one-sheet reading succeeds iff the bytes parse into at least one sheet. It then returns exactly one text: the first sheet, trimmed and rendered. |
| `ExcelConverter.MergeMeta` | src/dc_custom_component/components/converters/excel_converter.py:66-70 | The merged metadata has every key of either map. The caller's value wins on a clash, and the byte stream's value is kept elsewhere. |
| `ExcelConverter.ConvertEmitsInOrder` | src/dc_custom_component/components/converters/excel_converter.py:47-72 | When no extraction returns an empty list, `run` succeeds. It yields exactly one document per source that reads and extracts, in source order, with that source's content and merged metadata. Failed sources are skipped, and later sources are still processed. |
| `ExcelConverter.ConvertAbortsIff` | src/dc_custom_component/components/converters/excel_converter.py:53-71 | `run` raises iff some source that reads and extracts returns no tables, because `tables[0]` lies outside any `try`. |
| `ExcelConverter.ConvertAbortIsFinal` | src/dc_custom_component/components/converters/excel_converter.py:71 | Once `run` has raised on a prefix of the sources, the whole call has raised. |
| `ExcelConverter.ConvertAsWrittenEmitsNothing` | src/dc_custom_component/components/converters/excel_converter.py:53-61 | With extraction as written, `run` returns no document for any list of sources. |
| `ExcelConverter.ConvertSameSteps` | src/dc_custom_component/components/converters/excel_converter.py:47-72 | `run`'s result depends on the extraction step only through what each source contributes: two steps that agree on every source give the same result. |
| `ExcelConverter.ConvertAllSheets` | src/dc_custom_component/components/converters/excel_converter.py:47-92 | With every sheet extracted, `run` raises iff some readable source parses into a workbook without sheets. When none does, its result equals the result under the one-sheet reading. |
| `ExcelConverter.ConvertFirstSheets` | src/dc_custom_component/components/converters/excel_converter.py:47-92 | With the one-sheet reading, `run` never raises. It emits one document per source that reads and parses into at least one sheet, in order: the rendered, trimmed first sheet with the merged metadata. |
| `ExcelConverter.Run` | src/dc_custom_component/components/converters/excel_converter.py:44-74 | The loop's result equals the specification `Convert`: skip on read or extraction failure, one document per other source, abort on `tables[0]` of an empty list. |
| `Decimal.DecimalString` | src/dc_custom_component/components/augmenters/link_adder.py:25 | `str(n)` is a non-empty string of digits that starts with `0` only for zero. |
| `Decimal.DecimalStringValue` | src/dc_custom_component/components/augmenters/link_adder.py:25 | Reading the numeral back gives `n`. |
| `LinkAdder.MatchIndex` | src/dc_custom_component/components/augmenters/link_adder.py:18-21 | The first document whose `id` equals the reference's `document_id`, or None when none does. |
| `LinkAdder.ExternalLinksMatch` | src/dc_custom_component/components/augmenters/link_adder.py:15-21 | The collected links are, in reference order, the `src_url` of the first matching document of each reference that matches. There is one link per such reference, so two references to one document give two links. |
| `LinkAdder.NoLinksIffNoMatch` | src/dc_custom_component/components/augmenters/link_adder.py:18-22 | No link is collected iff no reference matches a document. |
| `LinkAdder.ExternalLinksAppend` | src/dc_custom_component/components/augmenters/link_adder.py:16-21 | The links of two concatenated reference lists are the two lists' links, concatenated. |
| `LinkAdder.FootnotesFromAppend` | src/dc_custom_component/components/augmenters/link_adder.py:24-25 | Numbering carries on across a split of the links. |
| `LinkAdder.FootnotesNumberedFromOne` | src/dc_custom_component/components/augmenters/link_adder.py:23-25 | The footnotes built by the loop equal footnotes numbered consecutively from 1, in link order. |
| `LinkAdder.FootnoteInjective` | src/dc_custom_component/components/augmenters/link_adder.py:25 | A footnote `"\n\n[Ext n](url)"` determines both its number and its URL. |
| `LinkAdder.FootnoteBlockEmptyIff` | src/dc_custom_component/components/augmenters/link_adder.py:15-22 | The appended block is empty, so the text is unchanged, iff no reference matches. This covers the case of no references at all. |
| `LinkAdder.SameDocumentTwice` | src/dc_custom_component/components/augmenters/link_adder.py:16-25 | Two references to the same document give the two footnotes `[Ext 1]` and `[Ext 2]`, both with its URL. |
| `LinkAdder.SameDocumentTwiceLinks` | src/dc_custom_component/components/augmenters/link_adder.py:16-21 | Two references to the same document collect its URL twice. |
| `LinkAdder.TwoFootnotes` | src/dc_custom_component/components/augmenters/link_adder.py:24-25 | Two links give footnotes numbered 1 and 2, in that order. |
| `LinkAdder.CollectExternalLinks` | src/dc_custom_component/components/augmenters/link_adder.py:14-21 | The nested loops, with the break on the first match, compute exactly the specified links. |
| `LinkAdder.FormatFootnotes` | src/dc_custom_component/components/augmenters/link_adder.py:23-25 | The string-building loop computes exactly the specified footnote block. |
| `LinkAdder.AddExternalLinks` | src/dc_custom_component/components/augmenters/link_adder.py:14-26 | The answer's new text is its old text followed by its footnote block. The old text is a preserved prefix. |
| `LinkAdder.Run` | src/dc_custom_component/components/augmenters/link_adder.py:12-28 | The same answers come back, in the same order. Each answer's text gains its footnote block once for each time the answer appears in the list, so exactly once for an answer listed once. Only `data` changes. |

## Left out

- Reading a source (`get_bytestream_from_source`, excel_converter.py:49): library code. The outcome is carried in `Source.stream`, where `None` means it raised. The source itself appears only in the skip warnings (excel_converter.py:51, 57), so `Source` carries nothing else.
- `normalize_metadata` (excel_converter.py:45): library code. `run` takes the per-source metadata list, as long as the sources.
- Workbook parsing (`pd.read_excel`, excel_converter.py:80-84) is a foreign call on a binary format. It is the `Parser` parameter, which yields the sheets, each with row 0 as data, or fails. Blank cells, and text cells that `read_excel`'s default `na_values` list as missing (such as `""`, `"NA"`, `"N/A"`, `"null"`, `"nan"`, `"None"`), become NaN (`None`) inside the parser. The model does not restate that list.
- pandas CSV details: quoting and escaping, number formatting (a numeric cell rendered as `1.0`), and the line terminator, taken as `"\n"`. Cells are already-rendered strings.
- CsvRender.RenderCsvLines: states the line and field structure only for tables that Python's csv writer writes without quoting. No cell may hold a comma, a double quote, a carriage return or a newline, and a one-column table may have no empty cell, because a row made of one empty field is written as `""`.
- CsvRender.RenderTrimmed: carries the same restriction as `RenderCsvLines`, on the trimmed table.
- Metadata values are text. Python's dict key order is not modelled, because `map` has none.
- Haystack's document id generation, logging, and the `@component` output-type declarations are not modelled. link_adder.py:11 declares `documents` but line 28 returns `answers`.
- The TODOs in excel_converter.py are not modelled because the code does not implement them: markdown output, one document per sheet, `sheet_name` and Excel metadata.
- A `_references` entry without `document_id` would raise `KeyError` at link_adder.py:17. `Reference` always carries one.
- LinkAdder.Run: requires every document a reference resolves to to carry `src_url`. The source raises `KeyError` otherwise (link_adder.py:20), after earlier answers have already been extended, and that partial update is not modelled.
- LinkAdder.CollectExternalLinks: carries the same `src_url` precondition.
- LinkAdder.AddExternalLinks: carries the same `src_url` precondition, through `Answer.Linkable`.
- An answer's `documents` and `_references` are constant fields of `Answer`, because nothing in this component assigns them. Only `data` is mutable.
- Display names (`file_name`), spreadsheet URL detection, `gid` and row-range anchors, and coordinate labels are not modelled. The code has none of them.

## Findings

| source | as written | input that shows it | evidently intended | confidence | as-written member | corrected member |
|---|---|---|---|---|---|---|
| src/dc_custom_component/components/converters/excel_converter.py:83-87 | `sheet_name=None` makes `pd.read_excel` return a dict from sheet name to frame. Line 87 calls `.dropna` on that dict, which raises `AttributeError`. Line 55 catches it, so every source is skipped and `run` returns no documents. | Any readable workbook, for example one sheet with a single non-empty cell. | Load all sheets, as line 83's comment says, and apply lines 87-91 to each frame of the mapping, returning one text per sheet (the `List[str]` result); `tables[0]` is then the first sheet's text. | high; not executed | `ExcelConverter.ConvertAsWrittenEmitsNothing` | `ExcelConverter.ExtractAllSheets` |
