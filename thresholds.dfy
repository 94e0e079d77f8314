/** Threshold checks shared by the simple anomaly detector and the alert
    rules: each KPI named in a threshold table is looked up in a column
    mapping, the first variant the frame holds is coerced to numbers, and
    every row whose value falls below "min" or above "max" is reported. */
module Thresholds {
  import opened Telemetry

  /** One KPI's conditions, such as {"min": 15.0} or {"max": 0.001}. */
  type Condition = map<string, real>

  /** The threshold dict, in its insertion order. */
  type ThresholdTable = seq<(string, Condition)>

  /** A KPI name with its candidate column names, in dict order. */
  type ColumnMapping = seq<(string, seq<string>)>

  datatype Kind = BelowMin | AboveMax

  /** One reported breach: the row's position, the KPI, the column checked,
      the coerced value and which bound it crossed. */
  datatype Breach = Breach(rowIndex: nat, kpi: string, col: string, value: real, kind: Kind)

  /** mapping.get(k, []): the variants of the first entry for k. */
  function Variants(mapping: ColumnMapping, k: string): (vs: seq<string>)
    ensures (forall j :: 0 <= j < |mapping| ==> mapping[j].0 != k) ==> vs == []
    ensures vs != [] ==> exists j :: 0 <= j < |mapping| && mapping[j] == (k, vs)
  {
    if mapping == [] then []
    else if mapping[0].0 == k then mapping[0].1
    else
      var vs := Variants(mapping[1..], k);
      assert forall j :: 0 <= j < |mapping| - 1 ==> mapping[1..][j] == mapping[j + 1];
      vs
  }

  /** The column checked for KPI k: the first of its variants the frame holds. */
  function ColumnFor(mapping: ColumnMapping, k: string, columns: seq<string>): Option<string>
  {
    FirstPresent(Variants(mapping, k), columns)
  }

  /** A strict comparison against the bound; a missing value never breaches. */
  predicate Beyond(kind: Kind, bound: real, v: real)
  {
    match kind
    case BelowMin => v < bound
    case AboveMax => v > bound
  }

  /** The rows of `rows` whose coerced `col` value is beyond the bound, in row order. */
  function Hits(rows: seq<Row>, col: string, kpi: string, kind: Kind, bound: real,
                parse: string -> Option<real>): (r: seq<Breach>)
    ensures |r| <= |rows|
    ensures forall a :: 0 <= a < |r| ==>
              r[a].rowIndex < |rows| && r[a].kpi == kpi && r[a].col == col && r[a].kind == kind
  {
    if rows == [] then []
    else
      var n := |rows| - 1;
      var v := Coerce(parse, Get(rows[n], col));
      Hits(rows[..n], col, kpi, kind, bound, parse)
      + if v.Some? && Beyond(kind, bound, v.value) then [Breach(n, kpi, col, v.value, kind)] else []
  }

  /** A row is reported exactly when its coerced value exists and is strictly
      beyond the bound, and the report carries that value and the row's position. */
  lemma {:induction false} HitsExact(rows: seq<Row>, col: string, kpi: string, kind: Kind, bound: real,
                                     parse: string -> Option<real>, b: Breach)
    ensures b in Hits(rows, col, kpi, kind, bound, parse) <==>
              b.rowIndex < |rows| && b.kpi == kpi && b.col == col && b.kind == kind
              && Coerce(parse, Get(rows[b.rowIndex], col)) == Some(b.value)
              && Beyond(kind, bound, b.value)
  {
    if rows != [] {
      var n := |rows| - 1;
      HitsExact(rows[..n], col, kpi, kind, bound, parse, b);
      if b.rowIndex < n {
        assert rows[..n][b.rowIndex] == rows[b.rowIndex];
      }
    }
  }

  predicate RowOrdered(r: seq<Breach>)
  {
    forall a, b :: 0 <= a < b < |r| ==> r[a].rowIndex < r[b].rowIndex
  }

  /** Reports come in strictly increasing row order. */
  lemma {:induction false} HitsOrdered(rows: seq<Row>, col: string, kpi: string, kind: Kind, bound: real,
                                       parse: string -> Option<real>)
    ensures RowOrdered(Hits(rows, col, kpi, kind, bound, parse))
  {
    if rows != [] {
      var n := |rows| - 1;
      HitsOrdered(rows[..n], col, kpi, kind, bound, parse);
      var init := Hits(rows[..n], col, kpi, kind, bound, parse);
      var v := Coerce(parse, Get(rows[n], col));
      if v.Some? && Beyond(kind, bound, v.value) {
        var r := init + [Breach(n, kpi, col, v.value, kind)];
        assert r == Hits(rows, col, kpi, kind, bound, parse);
        forall a, b | 0 <= a < b < |r| ensures r[a].rowIndex < r[b].rowIndex {
          assert r[a] == init[a];
          assert init[a].rowIndex < n;
          if b < |init| {
            assert r[b] == init[b];
          }
        }
      } else {
        assert init + [] == init;
        assert init == Hits(rows, col, kpi, kind, bound, parse);
      }
    }
  }

  /** One KPI: its "min" breaches, then its "max" breaches. */
  function KpiBreaches(f: Frame, kpi: string, cond: Condition, col: string,
                       parse: string -> Option<real>): seq<Breach>
  {
    (if "min" in cond then Hits(f.rows, col, kpi, BelowMin, cond["min"], parse) else [])
    + (if "max" in cond then Hits(f.rows, col, kpi, AboveMax, cond["max"], parse) else [])
  }

  /** The breaches of a whole threshold table, KPI by KPI in table order; a
      KPI with no present column is skipped. */
  function TableBreaches(f: Frame, table: ThresholdTable, mapping: ColumnMapping,
                         parse: string -> Option<real>): seq<Breach>
  {
    if table == [] then []
    else
      var init := TableBreaches(f, table[..|table| - 1], mapping, parse);
      var (k, cond) := table[|table| - 1];
      match ColumnFor(mapping, k, f.columns)
      case None => init
      case Some(col) => init + KpiBreaches(f, k, cond, col, parse)
  }

  /** Exactly the breaches the table asks for are reported: b is reported
      iff some entry (k, cond) of the table has a column present, b is about
      that KPI and column, the entry holds the bound b's kind names, and b's
      row's coerced value is strictly beyond that bound. */
  lemma {:induction false} TableBreachesExact(f: Frame, table: ThresholdTable, mapping: ColumnMapping,
                                              parse: string -> Option<real>, b: Breach)
    ensures b in TableBreaches(f, table, mapping, parse) <==>
      exists j :: 0 <= j < |table| && table[j].0 == b.kpi
        && ColumnFor(mapping, b.kpi, f.columns) == Some(b.col)
        && KindHolds(table[j].1, b, f, parse)
  {
    if table != [] {
      var n := |table| - 1;
      var init := table[..n];
      TableBreachesExact(f, init, mapping, parse, b);
      assert forall j :: 0 <= j < n ==> init[j] == table[j];
      var (k, cond) := table[n];
      match ColumnFor(mapping, k, f.columns)
      case None =>
      case Some(col) =>
        KpiBreachesExact(f, k, cond, col, parse, b);
        var prev := TableBreaches(f, init, mapping, parse);
        assert b in prev + KpiBreaches(f, k, cond, col, parse)
               <==> b in prev || b in KpiBreaches(f, k, cond, col, parse);
    }
  }

  /** One KPI's breaches are exactly its rows beyond the bounds `cond` holds. */
  lemma KpiBreachesExact(f: Frame, k: string, cond: Condition, col: string,
                         parse: string -> Option<real>, b: Breach)
    ensures b in KpiBreaches(f, k, cond, col, parse) <==> b.kpi == k && b.col == col && KindHolds(cond, b, f, parse)
  {
    var lo := if "min" in cond then Hits(f.rows, col, k, BelowMin, cond["min"], parse) else [];
    var hi := if "max" in cond then Hits(f.rows, col, k, AboveMax, cond["max"], parse) else [];
    if "min" in cond { HitsExact(f.rows, col, k, BelowMin, cond["min"], parse, b); }
    if "max" in cond { HitsExact(f.rows, col, k, AboveMax, cond["max"], parse, b); }
    assert b in lo + hi <==> b in lo || b in hi;
  }

  /** Report order inside one KPI: every "min" breach before every "max"
      breach, and row order within each. */
  predicate Precedes(a: Breach, b: Breach)
  {
    (a.kind == BelowMin && b.kind == AboveMax) || (a.kind == b.kind && a.rowIndex < b.rowIndex)
  }

  predicate KindThenRowOrdered(r: seq<Breach>)
  {
    forall a, b :: 0 <= a < b < |r| ==> Precedes(r[a], r[b])
  }

  lemma KpiBreachesOrdered(f: Frame, k: string, cond: Condition, col: string,
                           parse: string -> Option<real>)
    ensures KindThenRowOrdered(KpiBreaches(f, k, cond, col, parse))
  {
    var lo: seq<Breach> := [];
    var hi: seq<Breach> := [];
    if "min" in cond {
      lo := Hits(f.rows, col, k, BelowMin, cond["min"], parse);
      HitsOrdered(f.rows, col, k, BelowMin, cond["min"], parse);
    }
    if "max" in cond {
      hi := Hits(f.rows, col, k, AboveMax, cond["max"], parse);
      HitsOrdered(f.rows, col, k, AboveMax, cond["max"], parse);
    }
    assert forall a :: 0 <= a < |lo| ==> lo[a].kind == BelowMin;
    assert forall a :: 0 <= a < |hi| ==> hi[a].kind == AboveMax;
    var r := lo + hi;
    assert r == KpiBreaches(f, k, cond, col, parse);
    forall a, b | 0 <= a < b < |r| ensures Precedes(r[a], r[b]) {
      if b < |lo| {
        assert r[a] == lo[a] && r[b] == lo[b];
      } else if a >= |lo| {
        assert r[a] == hi[a - |lo|] && r[b] == hi[b - |lo|];
      } else {
        assert r[a] == lo[a] && r[b] == hi[b - |lo|];
      }
    }
  }

  /** b is a breach of the bound its kind names in `cond`. */
  predicate KindHolds(cond: Condition, b: Breach, f: Frame, parse: string -> Option<real>)
  {
    b.rowIndex < |f.rows|
    && Coerce(parse, Get(f.rows[b.rowIndex], b.col)) == Some(b.value)
    && match b.kind
       case BelowMin => "min" in cond && b.value < cond["min"]
       case AboveMax => "max" in cond && b.value > cond["max"]
  }

  /** The loop with `break` that picks a KPI's column. */
  method FindColumn(variants: seq<string>, columns: seq<string>) returns (col: Option<string>)
    ensures col == FirstPresent(variants, columns)
  {
    col := None;
    var i := 0;
    while i < |variants|
      invariant 0 <= i <= |variants|
      invariant FirstPresent(variants, columns) == FirstPresent(variants[i..], columns)
    {
      assert variants[i..][1..] == variants[i + 1..];
      if variants[i] in columns {
        col := Some(variants[i]);
        return;
      }
      i := i + 1;
    }
  }

  /** The two mask loops of one KPI: its breaches are appended to `acc`. */
  method AppendKpiBreaches(f: Frame, kpi: string, cond: Condition, col: string,
                           parse: string -> Option<real>, acc: seq<Breach>) returns (out: seq<Breach>)
    ensures out == acc + KpiBreaches(f, kpi, cond, col, parse)
  {
    var lo := if "min" in cond then Hits(f.rows, col, kpi, BelowMin, cond["min"], parse) else [];
    var hi := if "max" in cond then Hits(f.rows, col, kpi, AboveMax, cond["max"], parse) else [];
    out := acc;
    if "min" in cond {
      out := AppendHits(f.rows, col, kpi, BelowMin, cond["min"], parse, out);
    }
    assert out == acc + lo;
    if "max" in cond {
      out := AppendHits(f.rows, col, kpi, AboveMax, cond["max"], parse, out);
    }
    assert out == (acc + lo) + hi;
    assert acc + (lo + hi) == (acc + lo) + hi;
  }

  /** `for idx in df[mask].index: append(...)` over one mask. */
  method AppendHits(rows: seq<Row>, col: string, kpi: string, kind: Kind, bound: real,
                    parse: string -> Option<real>, acc: seq<Breach>) returns (out: seq<Breach>)
    ensures out == acc + Hits(rows, col, kpi, kind, bound, parse)
  {
    out := acc;
    for i := 0 to |rows|
      invariant out == acc + Hits(rows[..i], col, kpi, kind, bound, parse)
    {
      assert rows[..i + 1][..i] == rows[..i];
      var v := Coerce(parse, Get(rows[i], col));
      if v.Some? && Beyond(kind, bound, v.value) {
        out := out + [Breach(i, kpi, col, v.value, kind)];
      }
    }
    assert rows[..|rows|] == rows;
  }
}
