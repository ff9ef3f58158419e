/**
 * `df.to_csv(header=False, index=False)` on a trimmed sheet: one line per row, each line the
 * row's cells joined by commas and ended by a newline, a NaN cell written as the empty string.
 * No header line and no index column are written.
 */
module CsvRender {
  import opened Wrappers
  import opened SheetTrim

  /** The text written for one cell: NaN becomes the empty string (pandas' default `na_rep`). */
  function CellText(c: Cell): string {
    match c
    case None => ""
    case Some(s) => s
  }

  /** The texts of a row's cells, left to right. */
  function CellTexts(row: seq<Cell>): (r: seq<string>)
    ensures |r| == |row| && forall j :: 0 <= j < |row| ==> r[j] == CellText(row[j])
  {
    seq(|row|, j requires 0 <= j < |row| => CellText(row[j]))
  }

  /** The fields joined by the separator. */
  function Join(fields: seq<string>, sep: char): string
    decreases |fields|
  {
    if |fields| == 0 then ""
    else if |fields| == 1 then fields[0]
    else fields[0] + [sep] + Join(fields[1..], sep)
  }

  /** The lines, each followed by a newline. */
  function Terminated(lines: seq<string>): string
    decreases |lines|
  {
    if lines == [] then "" else lines[0] + "\n" + Terminated(lines[1..])
  }

  /** The line written for one row. */
  function RowLine(row: seq<Cell>): string {
    Join(CellTexts(row), ',')
  }

  /** The whole CSV text: the rows' lines only, with no header line and no index field. */
  function RenderCsv(t: Table): string {
    Terminated(seq(|t.rows|, i requires 0 <= i < |t.rows| => RowLine(t.rows[i])))
  }

  /** The pieces of `s` between separators; there is always at least one (Python's `str.split`). */
  function Split(s: string, sep: char): (r: seq<string>)
    ensures |r| >= 1
    decreases |s|
  {
    if s == [] then [""]
    else
      var rest := Split(s[1..], sep);
      if s[0] == sep then [""] + rest else [[s[0]] + rest[0]] + rest[1..]
  }

  /** A string without the separator splits into itself. */
  lemma {:induction false} SplitWithoutSeparator(w: string, sep: char)
    requires sep !in w
    ensures Split(w, sep) == [w]
    decreases |w|
  {
    if w != [] {
      SplitWithoutSeparator(w[1..], sep);
      assert [w[0]] + w[1..] == w;
    }
  }

  /** A separator-free piece followed by the separator splits off as the first piece. */
  lemma {:induction false} SplitAfterPiece(w: string, sep: char, rest: string)
    requires sep !in w
    ensures Split(w + [sep] + rest, sep) == [w] + Split(rest, sep)
    decreases |w|
  {
    var s := w + [sep] + rest;
    if w == [] {
      assert s[1..] == rest;
    } else {
      assert s[1..] == w[1..] + [sep] + rest;
      SplitAfterPiece(w[1..], sep, rest);
      assert [s[0]] + w[1..] == w;
    }
  }

  /** Splitting undoes joining when no field holds the separator. */
  lemma {:induction false} SplitJoin(fields: seq<string>, sep: char)
    requires |fields| >= 1
    requires forall k :: 0 <= k < |fields| ==> sep !in fields[k]
    ensures Split(Join(fields, sep), sep) == fields
    decreases |fields|
  {
    if |fields| == 1 {
      SplitWithoutSeparator(fields[0], sep);
    } else {
      SplitAfterPiece(fields[0], sep, Join(fields[1..], sep));
      SplitJoin(fields[1..], sep);
    }
  }

  /** Splitting newline-terminated lines gives the lines back, then the empty text after the last newline. */
  lemma {:induction false} SplitTerminated(lines: seq<string>)
    requires forall k :: 0 <= k < |lines| ==> '\n' !in lines[k]
    ensures Split(Terminated(lines), '\n') == lines + [""]
    decreases |lines|
  {
    if lines != [] {
      SplitAfterPiece(lines[0], '\n', Terminated(lines[1..]));
      SplitTerminated(lines[1..]);
    }
  }

  /**
   * Nothing in the table makes Python's csv writer quote a field under pandas' minimal quoting:
   * no cell text holds a comma, a double quote, a carriage return or a newline, and no row
   * consists of one single empty field (which the writer would write as `""`).
   */
  predicate PlainCells(t: Table) {
    && (forall i, j :: 0 <= i < |t.rows| && 0 <= j < t.width && t.rows[i][j].Some? ==>
          ',' !in t.rows[i][j].value && '"' !in t.rows[i][j].value
          && '\r' !in t.rows[i][j].value && '\n' !in t.rows[i][j].value)
    && (t.width == 1 ==> forall i :: 0 <= i < |t.rows| ==> CellText(t.rows[i][0]) != "")
  }

  /**
   * The rendered text has exactly one line per row and nothing else, and each line holds
   * exactly the row's cells, one field per column: no header line, no index field.
   */
  lemma RenderCsvLines(t: Table)
    requires PlainCells(t)
    requires t.width >= 1 || |t.rows| == 0
    ensures var lines := Split(RenderCsv(t), '\n');
      && |lines| == |t.rows| + 1
      && lines[|t.rows|] == ""
      && forall i :: 0 <= i < |t.rows| ==> Split(lines[i], ',') == CellTexts(t.rows[i])
  {
    var lines := seq(|t.rows|, i requires 0 <= i < |t.rows| => RowLine(t.rows[i]));
    forall i | 0 <= i < |t.rows| ensures '\n' !in lines[i] && Split(lines[i], ',') == CellTexts(t.rows[i]) {
      var texts := CellTexts(t.rows[i]);
      forall j | 0 <= j < |texts| ensures ',' !in texts[j] && '\n' !in texts[j] {
        assert texts[j] == CellText(t.rows[i][j]);
      }
      JoinWithout(texts, ',', '\n');
      SplitJoin(texts, ',');
    }
    SplitTerminated(lines);
  }

  /** A character absent from the fields and distinct from the separator is absent from the join. */
  lemma {:induction false} JoinWithout(fields: seq<string>, sep: char, c: char)
    requires c != sep
    requires forall k :: 0 <= k < |fields| ==> c !in fields[k]
    ensures c !in Join(fields, sep)
    decreases |fields|
  {
    if |fields| > 1 {
      JoinWithout(fields[1..], sep, c);
    }
  }

  /**
   * The text `_extract_tables` renders for a sheet: one line per surviving row, holding exactly
   * that row's surviving cells in their original order.
   */
  lemma RenderTrimmed(t: Table)
    requires PlainCells(Trim(t))
    ensures var r, rows, cols := Trim(t), SurvivingRows(t), KeptColumns(t);
      var lines := Split(RenderCsv(r), '\n');
      && |lines| == |rows| + 1
      && lines[|rows|] == ""
      && forall m :: 0 <= m < |rows| ==>
           var fields := Split(lines[m], ',');
           |fields| == |cols| && forall k :: 0 <= k < |cols| ==> fields[k] == CellText(t.rows[rows[m]][cols[k]])
  {
    var r := Trim(t);
    TrimKeeps(t);
    TrimLeavesNoEmptyRow(t);
    if |r.rows| > 0 {
      assert !RowEmpty(r, 0);
    }
    RenderCsvLines(r);
  }
}
