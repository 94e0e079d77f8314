/** The Prometheus text exporter: one exposition line per row and per
    non-missing cell of a numeric column, labelled with the row's TP and NE
    cells when the table has those columns, the lines joined by newlines.
    How a cell is printed inside a label (`str`) and how a number is
    printed (`float(val)` in text) are the parameters `show` and `fmt`. */
module Export {
  import opened Telemetry

  /** The metric prefix used when the caller gives none. */
  const DefaultPrefix: string := "opt_telemetry"

  // ---- joining ----

  /** sep.join(parts). */
  function Join(parts: seq<string>, sep: string): string
  {
    if parts == [] then ""
    else if |parts| == 1 then parts[0]
    else Join(parts[..|parts| - 1], sep) + sep + parts[|parts| - 1]
  }

  /** How often a character occurs in a string. */
  function Occurrences(ch: char, s: string): nat
  {
    if s == [] then 0
    else Occurrences(ch, s[..|s| - 1]) + if s[|s| - 1] == ch then 1 else 0
  }

  lemma {:induction false} OccurrencesAppend(ch: char, a: string, b: string)
    ensures Occurrences(ch, a + b) == Occurrences(ch, a) + Occurrences(ch, b)
  {
    if b != [] {
      var n := |b| - 1;
      OccurrencesAppend(ch, a, b[..n]);
      assert (a + b)[..|a + b| - 1] == a + b[..n];
      assert (a + b)[|a + b| - 1] == b[n];
    } else {
      assert a + b == a;
    }
  }

  lemma {:induction false} OccurrencesNone(ch: char, s: string)
    requires ch !in s
    ensures Occurrences(ch, s) == 0
  {
    if s != [] {
      assert s[..|s| - 1] + [s[|s| - 1]] == s;
      OccurrencesNone(ch, s[..|s| - 1]);
    }
  }

  /** Joining parts that do not contain the one-character separator puts
      exactly one separator between neighbours and none at either end; no
      parts give the empty string. */
  lemma {:induction false} JoinSeparators(parts: seq<string>, ch: char)
    requires forall k :: 0 <= k < |parts| ==> ch !in parts[k]
    ensures Occurrences(ch, Join(parts, [ch])) == if parts == [] then 0 else |parts| - 1
    ensures parts == [] ==> Join(parts, [ch]) == ""
  {
    if |parts| == 1 {
      OccurrencesNone(ch, parts[0]);
    } else if |parts| > 1 {
      var n := |parts| - 1;
      assert forall k :: 0 <= k < n ==> parts[..n][k] == parts[k];
      JoinSeparators(parts[..n], ch);
      OccurrencesAppend(ch, Join(parts[..n], [ch]) + [ch], parts[n]);
      OccurrencesAppend(ch, Join(parts[..n], [ch]), [ch]);
      assert Occurrences(ch, [ch]) == 1 by {
        var one: string := [ch];
        assert one[..0] == [];
      }
      OccurrencesNone(ch, parts[n]);
    }
  }

  // ---- numeric columns ----

  /** A column whose every cell is a number or missing (select_dtypes "number"). */
  predicate NumericColumn(rows: seq<Row>, c: string)
  {
    forall i :: 0 <= i < |rows| ==> Get(rows[i], c).Num? || Get(rows[i], c).Blank?
  }

  function NumericColumns(f: Frame): (cols: seq<string>)
    ensures forall c :: c in cols <==> c in f.columns && NumericColumn(f.rows, c)
  {
    NumericOf(f.rows, f.columns)
  }

  function NumericOf(rows: seq<Row>, columns: seq<string>): (cols: seq<string>)
    ensures forall c :: c in cols <==> c in columns && NumericColumn(rows, c)
  {
    if columns == [] then []
    else
      var n := |columns| - 1;
      assert columns == columns[..n] + [columns[n]];
      NumericOf(rows, columns[..n]) + if NumericColumn(rows, columns[n]) then [columns[n]] else []
  }

  // ---- one line ----

  /** The label list of a row: tp first, then ne, each only when the table
      has that column. */
  function Labels(columns: seq<string>, row: Row, show: Cell -> string): seq<string>
  {
    (if "TP" in columns then ["tp=\"" + show(Get(row, "TP")) + "\""] else [])
    + (if "NE" in columns then ["ne=\"" + show(Get(row, "NE")) + "\""] else [])
  }

  /** The brace block, left out entirely when there are no labels. */
  function LabelBlock(labels: seq<string>): string
  {
    if labels == [] then "" else "{" + Join(labels, ",") + "}"
  }

  function Metric(prefix: string, col: string): string
  {
    prefix + "_" + col
  }

  /** One exposition line: metric, label block, a space, the value. */
  function Line(prefix: string, col: string, block: string, x: real, fmt: real -> string): string
  {
    Metric(prefix, col) + block + " " + fmt(x)
  }

  /** The block has both labels, tp before ne, comma-joined in braces; one
      label alone when only one column exists; nothing when neither does. */
  lemma LabelBlockShape(columns: seq<string>, row: Row, show: Cell -> string)
    ensures var block := LabelBlock(Labels(columns, row, show));
            var tp := "tp=\"" + show(Get(row, "TP")) + "\"";
            var ne := "ne=\"" + show(Get(row, "NE")) + "\"";
            && (block == "" <==> "TP" !in columns && "NE" !in columns)
            && ("TP" in columns && "NE" in columns ==> block == "{" + tp + "," + ne + "}")
            && ("TP" in columns && "NE" !in columns ==> block == "{" + tp + "}")
            && ("TP" !in columns && "NE" in columns ==> block == "{" + ne + "}")
  {
    var tp := "tp=\"" + show(Get(row, "TP")) + "\"";
    var ne := "ne=\"" + show(Get(row, "NE")) + "\"";
    if "TP" in columns && "NE" in columns {
      var labels := [tp, ne];
      assert Labels(columns, row, show) == labels;
      assert labels[..1] == [tp];
      assert Join(labels, ",") == tp + "," + ne;
    }
  }

  // ---- the lines of a table ----

  /** The columns among `cols` whose cell in `row` is a number, in order. */
  function Filled(row: Row, cols: seq<string>): (r: seq<string>)
    ensures forall c :: c in r <==> c in cols && Get(row, c).Num?
    ensures |r| <= |cols|
  {
    if cols == [] then []
    else
      var n := |cols| - 1;
      assert cols == cols[..n] + [cols[n]];
      Filled(row, cols[..n]) + if Get(row, cols[n]).Num? then [cols[n]] else []
  }

  /** The lines of one row over the numeric columns; missing cells are skipped. */
  function RowLines(row: Row, cols: seq<string>, prefix: string, block: string, fmt: real -> string): seq<string>
  {
    if cols == [] then []
    else
      var n := |cols| - 1;
      RowLines(row, cols[..n], prefix, block, fmt)
      + match Get(row, cols[n]) case Num(x) => [Line(prefix, cols[n], block, x, fmt)] case _ => []
  }

  /** A row's lines are one per filled numeric column, in column order. */
  lemma {:induction false} RowLinesAt(row: Row, cols: seq<string>, prefix: string, block: string, fmt: real -> string)
    ensures |RowLines(row, cols, prefix, block, fmt)| == |Filled(row, cols)|
    ensures forall k :: 0 <= k < |Filled(row, cols)| ==>
              RowLines(row, cols, prefix, block, fmt)[k]
              == Line(prefix, Filled(row, cols)[k], block, Get(row, Filled(row, cols)[k]).x, fmt)
  {
    if cols != [] {
      var n := |cols| - 1;
      RowLinesAt(row, cols[..n], prefix, block, fmt);
    }
  }

  /** The lines of a row of the table. */
  function RowText(f: Frame, cols: seq<string>, prefix: string, show: Cell -> string, fmt: real -> string)
    : Row -> seq<string>
  {
    row => RowLines(row, cols, prefix, LabelBlock(Labels(f.columns, row, show)), fmt)
  }

  /** All lines, row by row. */
  function Lines(f: Frame, rows: seq<Row>, prefix: string, show: Cell -> string, fmt: real -> string): seq<string>
  {
    Concat(rows, RowText(f, NumericColumns(f), prefix, show, fmt))
  }

  /** df_to_prometheus_lines. */
  function PrometheusText(f: Frame, prefix: string, show: Cell -> string, fmt: real -> string): string
  {
    Join(Lines(f, f.rows, prefix, show, fmt), "\n")
  }

  /** The number of non-missing numeric cells of `rows`. */
  function FilledCount(rows: seq<Row>, cols: seq<string>): nat
  {
    if rows == [] then 0
    else FilledCount(rows[..|rows| - 1], cols) + |Filled(rows[|rows| - 1], cols)|
  }

  /** Exactly one line per row and non-missing numeric cell. */
  lemma {:induction false} LinesCount(f: Frame, rows: seq<Row>, prefix: string, show: Cell -> string, fmt: real -> string)
    ensures |Lines(f, rows, prefix, show, fmt)| == FilledCount(rows, NumericColumns(f))
  {
    if rows != [] {
      var n := |rows| - 1;
      var row := rows[n];
      LinesCount(f, rows[..n], prefix, show, fmt);
      RowLinesAt(row, NumericColumns(f), prefix, LabelBlock(Labels(f.columns, row, show)), fmt);
    }
  }

  /** A line belongs to a row exactly when it is the line of one of the
      row's filled numeric columns. */
  lemma RowLineExact(row: Row, cols: seq<string>, prefix: string, block: string, fmt: real -> string, l: string)
    ensures l in RowLines(row, cols, prefix, block, fmt) <==>
              exists c :: c in cols && Get(row, c).Num? && l == Line(prefix, c, block, Get(row, c).x, fmt)
  {
    var lines := RowLines(row, cols, prefix, block, fmt);
    var filled := Filled(row, cols);
    RowLinesAt(row, cols, prefix, block, fmt);
    if l in lines {
      var k :| 0 <= k < |lines| && lines[k] == l;
      assert filled[k] in filled;
    }
    if exists c :: c in cols && Get(row, c).Num? && l == Line(prefix, c, block, Get(row, c).x, fmt) {
      var c :| c in cols && Get(row, c).Num? && l == Line(prefix, c, block, Get(row, c).x, fmt);
      assert c in filled;
      var k :| 0 <= k < |filled| && filled[k] == c;
      assert lines[k] == l;
    }
  }

  /** A line is emitted exactly for a row and a numeric column whose cell
      in that row is a number, and it is that row's metric line. */
  lemma LinesExact(f: Frame, prefix: string, show: Cell -> string, fmt: real -> string, l: string)
    ensures l in Lines(f, f.rows, prefix, show, fmt) <==>
      exists i, c :: 0 <= i < |f.rows| && c in f.columns && NumericColumn(f.rows, c) && Get(f.rows[i], c).Num?
        && l == Line(prefix, c, LabelBlock(Labels(f.columns, f.rows[i], show)), Get(f.rows[i], c).x, fmt)
  {
    var cols := NumericColumns(f);
    var each := RowText(f, cols, prefix, show, fmt);
    ConcatExact(f.rows, each, l);
    if l in Lines(f, f.rows, prefix, show, fmt) {
      var i :| 0 <= i < |f.rows| && l in each(f.rows[i]);
      var block := LabelBlock(Labels(f.columns, f.rows[i], show));
      RowLineExact(f.rows[i], cols, prefix, block, fmt, l);
    }
    if exists i, c :: 0 <= i < |f.rows| && c in f.columns && NumericColumn(f.rows, c) && Get(f.rows[i], c).Num?
         && l == Line(prefix, c, LabelBlock(Labels(f.columns, f.rows[i], show)), Get(f.rows[i], c).x, fmt) {
      var i, c :| 0 <= i < |f.rows| && c in f.columns && NumericColumn(f.rows, c) && Get(f.rows[i], c).Num?
         && l == Line(prefix, c, LabelBlock(Labels(f.columns, f.rows[i], show)), Get(f.rows[i], c).x, fmt);
      var block := LabelBlock(Labels(f.columns, f.rows[i], show));
      RowLineExact(f.rows[i], cols, prefix, block, fmt, l);
      assert l in each(f.rows[i]);
    }
  }

  lemma NoNumbersNoText(f: Frame, prefix: string, show: Cell -> string, fmt: real -> string)
    requires forall i, c :: 0 <= i < |f.rows| && c in f.columns && NumericColumn(f.rows, c) ==> !Get(f.rows[i], c).Num?
    ensures PrometheusText(f, prefix, show, fmt) == ""
  {
    var ls := Lines(f, f.rows, prefix, show, fmt);
    if ls != [] {
      LinesExact(f, prefix, show, fmt, ls[0]);
    }
  }

  /** The exporter's outer loop over the rows. */
  method DfToPrometheusLines(f: Frame, prefix: string := DefaultPrefix, show: Cell -> string, fmt: real -> string)
    returns (text: string)
    ensures text == PrometheusText(f, prefix, show, fmt)
  {
    var numCols := NumericColumns(f);
    var lines: seq<string> := [];
    for i := 0 to |f.rows|
      invariant lines == Lines(f, f.rows[..i], prefix, show, fmt)
    {
      ConcatStep(f.rows, RowText(f, numCols, prefix, show, fmt), i);
      lines := AppendRowLines(f, f.rows[i], numCols, prefix, show, fmt, lines);
    }
    assert f.rows[..|f.rows|] == f.rows;
    text := Join(lines, "\n");
  }

  /** The inner loop over the numeric columns of one row: the labels are
      rebuilt for every column and missing cells are skipped. */
  method AppendRowLines(f: Frame, row: Row, numCols: seq<string>, prefix: string, show: Cell -> string,
                        fmt: real -> string, acc: seq<string>) returns (lines: seq<string>)
    ensures lines == acc + RowLines(row, numCols, prefix, LabelBlock(Labels(f.columns, row, show)), fmt)
  {
    lines := acc;
    ghost var block := LabelBlock(Labels(f.columns, row, show));
    for j := 0 to |numCols|
      invariant lines == acc + RowLines(row, numCols[..j], prefix, block, fmt)
    {
      assert numCols[..j + 1][..j] == numCols[..j];
      var col := numCols[j];
      var metric := prefix + "_" + col;
      var labels: seq<string> := [];
      if "TP" in f.columns {
        labels := labels + ["tp=\"" + show(Get(row, "TP")) + "\""];
      }
      if "NE" in f.columns {
        labels := labels + ["ne=\"" + show(Get(row, "NE")) + "\""];
      }
      var labelStr := if labels != [] then "{" + Join(labels, ",") + "}" else "";
      assert labels == Labels(f.columns, row, show);
      var val := Get(row, col);
      if val.Num? {
        lines := lines + [metric + labelStr + " " + fmt(val.x)];
      }
    }
    assert numCols[..|numCols|] == numCols;
  }
}
