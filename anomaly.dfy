/** Baseline-based anomaly detection: per-span baselines (median, mean,
    std, count) of the KPI columns, and three per-row rules that compare a
    row with its span's baseline (Q-factor drop, CD drift, OSNR floor). */
module Anomaly {
  import opened Telemetry
  import opened Stats
  import opened Aggregate

  /** The candidate KPI columns when none are given. */
  const DefaultKpis: seq<string> := ["QFACTOR-AVG", "ESNR-AVG", "CDR", "PREFEC-AVG"]

  /** The statistics of a baseline, in the order of their columns. */
  const BaselineStats: seq<Stat> := [MedianOf, MeanOf, StdOf, CountOf]

  /** _find_present_kpis: the candidates that are columns, in candidate order. */
  function FindPresentKpis(columns: seq<string>, candidates: seq<string>): (r: seq<string>)
    ensures forall c :: c in r <==> c in candidates && c in columns
    ensures |r| <= |candidates|
  {
    if candidates == [] then []
    else
      var n := |candidates| - 1;
      assert candidates == candidates[..n] + [candidates[n]];
      FindPresentKpis(columns, candidates[..n]) + if candidates[n] in columns then [candidates[n]] else []
  }

  /** r lists the candidates at the increasing positions idx, and every
      candidate that is a column has its position in idx. */
  predicate KeptInOrder(r: seq<string>, candidates: seq<string>, columns: seq<string>, idx: seq<nat>)
  {
    && |idx| == |r| && Increasing(idx)
    && (forall i :: 0 <= i < |idx| ==> idx[i] < |candidates| && candidates[idx[i]] == r[i])
    && (forall j :: 0 <= j < |candidates| && candidates[j] in columns ==> j in idx)
  }

  /** The present KPIs are the candidates that are columns, in candidate
      order, duplicates included. */
  lemma {:induction false} FindPresentKpisOrder(columns: seq<string>, candidates: seq<string>)
    ensures exists idx :: KeptInOrder(FindPresentKpis(columns, candidates), candidates, columns, idx)
  {
    if candidates == [] {
      assert KeptInOrder(FindPresentKpis(columns, candidates), candidates, columns, []);
    } else {
      var n := |candidates| - 1;
      var init := candidates[..n];
      FindPresentKpisOrder(columns, init);
      var idx0 :| KeptInOrder(FindPresentKpis(columns, init), init, columns, idx0);
      assert candidates == init + [candidates[n]];
      var idx := KeptStep(FindPresentKpis(columns, init), init, candidates[n], columns, idx0);
      assert KeptInOrder(FindPresentKpis(columns, candidates), candidates, columns, idx);
    }
  }

  /** One more candidate extends the kept positions by its own when it is a column. */
  lemma KeptStep(r: seq<string>, init: seq<string>, x: string, columns: seq<string>, idx0: seq<nat>)
    returns (idx: seq<nat>)
    requires KeptInOrder(r, init, columns, idx0)
    ensures KeptInOrder(r + if x in columns then [x] else [], init + [x], columns, idx)
  {
    var n := |init|;
    var s := init + [x];
    if x in columns {
      idx := idx0 + [n];
      KeptPositions(r, init, x, columns, idx0);
      forall j | 0 <= j < |s| && s[j] in columns ensures j in idx {
        if j < n {
          assert s[j] == init[j];
          assert j in idx0;
        } else {
          assert idx[|idx0|] == j;
        }
      }
    } else {
      idx := idx0;
      KeptPositions(r, init, x, columns, idx0);
      forall j | 0 <= j < |s| && s[j] in columns ensures j in idx {
        assert s[j] == init[j];
      }
    }
  }

  /** The old positions still point at the same candidates after one more. */
  lemma KeptPositions(r: seq<string>, init: seq<string>, x: string, columns: seq<string>, idx0: seq<nat>)
    requires KeptInOrder(r, init, columns, idx0)
    ensures forall i :: 0 <= i < |idx0| ==> idx0[i] < |init| && (init + [x])[idx0[i]] == r[i]
  {
    forall i | 0 <= i < |idx0| ensures idx0[i] < |init| && (init + [x])[idx0[i]] == r[i] {
      assert init[idx0[i]] == r[i];
    }
  }

  /** No candidate being a column leaves nothing present. */
  lemma {:induction false} NothingPresent(columns: seq<string>, candidates: seq<string>)
    requires forall k :: k in candidates ==> k !in columns
    ensures FindPresentKpis(columns, candidates) == []
  {
    if candidates != [] {
      var n := |candidates| - 1;
      assert candidates[n] in candidates;
      forall k | k in candidates[..n] ensures k !in columns {
        assert k in candidates;
      }
      NothingPresent(columns, candidates[..n]);
    }
  }

  /** A single candidate is kept exactly when it is a column. */
  lemma FindPresentKpisSingle(columns: seq<string>, x: string)
    ensures FindPresentKpis(columns, [x]) == if x in columns then [x] else []
  {
    assert [x][..0] == [];
  }

  // ---- compute_baselines ----

  /** The values of column c among `rows` that survive numeric coercion, in
      row order: an unparseable cell is dropped, never read as zero. */
  function ParsedValues(rows: seq<Row>, c: string, parse: string -> Option<real>): (vs: seq<real>)
    ensures |vs| <= |rows|
  {
    if rows == [] then []
    else
      var n := |rows| - 1;
      ParsedValues(rows[..n], c, parse)
      + match Coerce(parse, Get(rows[n], c)) case Some(x) => [x] case None => []
  }

  function CandidatesOf(kpis: Option<seq<string>>): seq<string>
  {
    match kpis
    case None => DefaultKpis
    case Some(ks) => ks
  }

  /** compute_baselines: no candidate present gives the empty table;
      grouping by a span column the frame lacks fails; otherwise the
      present KPI columns are coerced and aggregated per span. */
  function Baselines(f: Frame, spanKey: string, kpis: Option<seq<string>>,
                     parse: string -> Option<real>, std: seq<real> -> real): Result<Frame>
  {
    var present := FindPresentKpis(f.columns, CandidatesOf(kpis));
    if present == [] then Ok(Frame([], []))
    else if spanKey !in f.columns then Err(MissingColumn(spanKey))
    else Ok(GroupAgg(CoerceColumns(f, present, parse), spanKey, Dedup(present), BaselineStats, std))
  }

  /** The loops of compute_baselines: the `agg` dict is filled key by key
      and `df2` has its KPI columns coerced one after the other. */
  method ComputeBaselines(f: Frame, spanKey: string, kpis: Option<seq<string>>,
                          parse: string -> Option<real>, std: seq<real> -> real) returns (r: Result<Frame>)
    ensures r == Baselines(f, spanKey, kpis, parse, std)
  {
    var present := FindPresentKpis(f.columns, CandidatesOf(kpis));
    if present == [] {
      return Ok(Frame([], []));
    }
    var agg: seq<string> := [];
    for i := 0 to |present|
      invariant agg == Dedup(present[..i])
    {
      assert present[..i + 1][..i] == present[..i];
      if present[i] !in agg {
        agg := agg + [present[i]];
      }
    }
    assert present[..|present|] == present;
    var df2 := f;
    for i := 0 to |present|
      invariant df2 == CoerceColumns(f, present[..i], parse)
    {
      assert present[..i + 1][..i] == present[..i];
      df2 := CoerceColumn(df2, present[i], parse);
    }
    if spanKey !in df2.columns {
      return Err(MissingColumn(spanKey));
    }
    r := Ok(GroupAgg(df2, spanKey, agg, BaselineStats, std));
  }

  /** Row by row, the coerced frame agrees with the input on the span
      column and holds the coerced cell in column c. */
  predicate CoercedRows(a: seq<Row>, b: seq<Row>, spanKey: string, c: string, parse: string -> Option<real>)
  {
    |a| == |b|
    && (forall i :: 0 <= i < |a| ==> KeyOf(a[i], [spanKey]) == KeyOf(b[i], [spanKey]))
    && (forall i :: 0 <= i < |a| ==> Get(a[i], c) == CoerceCell(parse, Get(b[i], c)))
  }

  lemma {:induction false} CoercedRowsPrefix(a: seq<Row>, b: seq<Row>, spanKey: string, c: string,
                                             parse: string -> Option<real>, n: nat)
    requires CoercedRows(a, b, spanKey, c, parse) && n <= |a|
    ensures CoercedRows(a[..n], b[..n], spanKey, c, parse)
  {
  }

  lemma {:induction false} CoercedKeys(a: seq<Row>, b: seq<Row>, spanKey: string, c: string,
                                       parse: string -> Option<real>)
    requires CoercedRows(a, b, spanKey, c, parse)
    ensures CompleteKeys(a, [spanKey]) == CompleteKeys(b, [spanKey])
  {
    if a != [] {
      var n := |a| - 1;
      CoercedRowsPrefix(a, b, spanKey, c, parse, n);
      CoercedKeys(a[..n], b[..n], spanKey, c, parse);
    }
  }

  lemma ValuesSnoc(rows: seq<Row>, r: Row, c: string)
    ensures Values(rows + [r], c) == Values(rows, c) + match Get(r, c) case Num(x) => [x] case _ => []
  {
    assert (rows + [r])[..|rows|] == rows;
  }

  lemma ParsedSnoc(rows: seq<Row>, r: Row, c: string, parse: string -> Option<real>)
    ensures ParsedValues(rows + [r], c, parse)
            == ParsedValues(rows, c, parse) + match Coerce(parse, Get(r, c)) case Some(x) => [x] case None => []
  {
    assert (rows + [r])[..|rows|] == rows;
  }

  /** A coerced cell holds a number exactly when the original parses, and
      then holds the parsed number. */
  lemma CoercedCellValue(parse: string -> Option<real>, cell: Cell)
    ensures (match CoerceCell(parse, cell) case Num(x) => [x] case _ => [])
            == (match Coerce(parse, cell) case Some(x) => [x] case None => [])
  {
  }

  /** The numbers of a coerced column within a span are the parsed values
      of the original cells of that span. */
  lemma {:induction false} CoercedGroupValues(a: seq<Row>, b: seq<Row>, spanKey: string, c: string,
                                              parse: string -> Option<real>, k: seq<Cell>)
    requires CoercedRows(a, b, spanKey, c, parse)
    ensures Values(GroupRows(a, [spanKey], k), c) == ParsedValues(GroupRows(b, [spanKey], k), c, parse)
  {
    if a != [] {
      var n := |a| - 1;
      CoercedRowsPrefix(a, b, spanKey, c, parse, n);
      CoercedGroupValues(a[..n], b[..n], spanKey, c, parse, k);
      var ga := GroupRows(a[..n], [spanKey], k);
      var gb := GroupRows(b[..n], [spanKey], k);
      assert KeyOf(a[n], [spanKey]) == KeyOf(b[n], [spanKey]);
      if KeyOf(a[n], [spanKey]) == k {
        assert GroupRows(a, [spanKey], k) == ga + [a[n]];
        assert GroupRows(b, [spanKey], k) == gb + [b[n]];
        ValuesSnoc(ga, a[n], c);
        ParsedSnoc(gb, b[n], c, parse);
        assert Get(a[n], c) == CoerceCell(parse, Get(b[n], c));
        CoercedCellValue(parse, Get(b[n], c));
      } else {
        assert GroupRows(a, [spanKey], k) == ga;
        assert GroupRows(b, [spanKey], k) == gb;
      }
    }
  }

  lemma CoerceColumnsRows(f: Frame, present: seq<string>, spanKey: string, c: string,
                          parse: string -> Option<real>)
    requires spanKey !in present && c in present && c in f.columns
    ensures CoercedRows(CoerceColumns(f, present, parse).rows, f.rows, spanKey, c, parse)
  {
    var g := CoerceColumns(f, present, parse);
    forall i | 0 <= i < |g.rows|
      ensures KeyOf(g.rows[i], [spanKey]) == KeyOf(f.rows[i], [spanKey])
      ensures Get(g.rows[i], c) == CoerceCell(parse, Get(f.rows[i], c))
    {
      CoerceColumnsAt(f, present, parse, i, spanKey);
      CoerceColumnsAt(f, present, parse, i, c);
    }
  }

  /** Coercing KPI columns leaves the spans, and their order, as they were. */
  lemma CoercedSpans(f: Frame, present: seq<string>, spanKey: string, k: string,
                     parse: string -> Option<real>)
    requires spanKey !in present && k in present && k in f.columns
    ensures GroupKeys(CoerceColumns(f, present, parse).rows, [spanKey]) == GroupKeys(f.rows, [spanKey])
  {
    CoerceColumnsRows(f, present, spanKey, k, parse);
    CoercedKeys(CoerceColumns(f, present, parse).rows, f.rows, spanKey, k, parse);
  }

  /** A baseline table has one row per distinct span of the input, and for
      each present KPI k and each of median, mean, std and count the cell
      '<k>_<stat>' of that row is the statistic of the values of k in that
      span that survive numeric coercion. In particular '<k>_count' counts
      exactly the parseable cells. */
  lemma BaselineCells(f: Frame, spanKey: string, kpis: Option<seq<string>>,
                      parse: string -> Option<real>, std: seq<real> -> real,
                      i: nat, k: string, s: Stat)
    requires Baselines(f, spanKey, kpis, parse, std).Ok?
    requires k in CandidatesOf(kpis) && k in f.columns && s in BaselineStats
    requires spanKey !in CandidatesOf(kpis) && FlatName(k, StatName(s)) != spanKey
    requires i < |GroupKeys(f.rows, [spanKey])|
    ensures var b := Baselines(f, spanKey, kpis, parse, std).value;
            var key := GroupKeys(f.rows, [spanKey])[i];
            && |b.rows| == |GroupKeys(f.rows, [spanKey])|
            && b.rows[i][spanKey] == key[0]
            && FlatName(k, StatName(s)) in b.rows[i]
            && b.rows[i][FlatName(k, StatName(s))]
               == StatCell(s, ParsedValues(GroupRows(f.rows, [spanKey], key), k, parse), std)
  {
    var present := FindPresentKpis(f.columns, CandidatesOf(kpis));
    assert k in present && k in Dedup(present);
    var g := CoerceColumns(f, present, parse);
    CoercedSpans(f, present, spanKey, k, parse);
    var keys := GroupKeys(f.rows, [spanKey]);
    GroupAggAt(g, spanKey, Dedup(present), BaselineStats, std, i, k, s);
    CoerceColumnsRows(f, present, spanKey, k, parse);
    CoercedGroupValues(g.rows, f.rows, spanKey, k, parse, keys[i]);
  }

  // ---- detect_anomalies_baseline ----

  const QCol: string := "QFACTOR-AVG"
  const CdCol: string := "CDR"
  const OsnrCol: string := "ESNR-AVG"

  /** The rule parameters: q_drop_db, cd_drift and the optional osnr_min. */
  datatype RuleConfig = RuleConfig(qDropDb: real, cdDrift: real, osnrMin: Option<real>)

  /** The reason strings, with the parameter each one embeds. */
  datatype Reason = QDrop(margin: real) | CdDrift(bound: real) | OsnrBelowMin(floor: real)

  datatype AnomalyRecord = AnomalyRecord(timestamp: Cell, span: string, kpi: string, col: string,
                                         value: real, baseline: Option<real>, reason: Reason)

  /** pd.notna on a coerced cell, with its value. */
  function NumOf(c: Cell): Option<real> { if c.Num? then Some(c.x) else None }

  /** The median baseline of a column: present only when the baseline row
      has the '<col>_median' entry and it is a number. */
  function MedianIn(base: Row, col: string): Option<real>
  {
    var key := FlatName(col, "median");
    if key in base then NumOf(base[key]) else None
  }

  /** Q-factor drop: strictly below the span's median minus the margin. */
  function QRule(row: Row, base: Row, span: string, columns: seq<string>, cfg: RuleConfig): seq<AnomalyRecord>
  {
    var v := NumOf(Get(row, QCol));
    var m := MedianIn(base, QCol);
    if QCol in columns && v.Some? && m.Some? && v.value < m.value - cfg.qDropDb then
      [AnomalyRecord(Get(row, "timestamp"), span, "qfactor", QCol, v.value, m, QDrop(cfg.qDropDb))]
    else []
  }

  function Abs(x: real): real { if x < 0.0 then -x else x }

  /** CD drift: strictly farther than the bound from the span's median. */
  function CdRule(row: Row, base: Row, span: string, columns: seq<string>, cfg: RuleConfig): seq<AnomalyRecord>
  {
    var v := NumOf(Get(row, CdCol));
    var m := MedianIn(base, CdCol);
    if CdCol in columns && v.Some? && m.Some? && Abs(v.value - m.value) > cfg.cdDrift then
      [AnomalyRecord(Get(row, "timestamp"), span, "cd", CdCol, v.value, m, CdDrift(cfg.cdDrift))]
    else []
  }

  /** OSNR floor: strictly below osnr_min when one is given; the baseline
      is reported when there is one but is not needed to fire. */
  function OsnrRule(row: Row, base: Row, span: string, columns: seq<string>, cfg: RuleConfig): seq<AnomalyRecord>
  {
    var v := NumOf(Get(row, OsnrCol));
    if OsnrCol in columns && cfg.osnrMin.Some? && v.Some? && v.value < cfg.osnrMin.value then
      [AnomalyRecord(Get(row, "timestamp"), span, "osnr", OsnrCol, v.value, MedianIn(base, OsnrCol),
                     OsnrBelowMin(cfg.osnrMin.value))]
    else []
  }

  /** The records of one row: none when its span has no baseline, else the
      three rules' records in the order Q, CD, OSNR. */
  function RowRecords(row: Row, lookup: map<string, Row>, spanKey: string, columns: seq<string>,
                      cfg: RuleConfig): seq<AnomalyRecord>
  {
    var span := Get(row, spanKey);
    var text := if span.Text? then span.s else "";
    if !span.Text? || text !in lookup then []
    else
      var base := lookup[text];
      QRule(row, base, text, columns, cfg) + CdRule(row, base, text, columns, cfg)
      + OsnrRule(row, base, text, columns, cfg)
  }

  /** The per-row records as one function of the row. */
  function RecordsOf(lookup: map<string, Row>, spanKey: string, columns: seq<string>,
                     cfg: RuleConfig): Row -> seq<AnomalyRecord>
  {
    row => RowRecords(row, lookup, spanKey, columns, cfg)
  }

  function AllRecords(rows: seq<Row>, lookup: map<string, Row>, spanKey: string, columns: seq<string>,
                      cfg: RuleConfig): seq<AnomalyRecord>
  {
    Concat(rows, RecordsOf(lookup, spanKey, columns, cfg))
  }

  /** baseline_lookup: each baseline row under its span's string, without
      the span itself; a later row with the same string replaces an earlier one. */
  function Lookup(rows: seq<Row>, spanKey: string, show: Cell -> string): map<string, Row>
  {
    if rows == [] then map[]
    else
      var n := |rows| - 1;
      Lookup(rows[..n], spanKey, show)[show(Get(rows[n], spanKey)) := rows[n] - {spanKey}]
  }

  /** `df2[span_key].astype(str)`: every span cell becomes its string. */
  function StringifyColumn(f: Frame, c: string, show: Cell -> string): (r: Frame)
    ensures r.columns == f.columns && |r.rows| == |f.rows|
  {
    Frame(f.columns, seq(|f.rows|, i requires 0 <= i < |f.rows| => f.rows[i][c := Text(show(Get(f.rows[i], c)))]))
  }

  /** df2: the span column stringified, then the three rule columns coerced
      where present. */
  function Prepared(f: Frame, spanKey: string, parse: string -> Option<real>, show: Cell -> string): Frame
  {
    CoerceColumn(CoerceColumn(CoerceColumn(StringifyColumn(f, spanKey, show), QCol, parse), CdCol, parse),
                 OsnrCol, parse)
  }

  /** detect_anomalies_baseline: an empty baseline table gives no records;
      otherwise the span column must exist, and the records are those of
      the prepared rows in row order. */
  function Detect(f: Frame, baselines: Frame, spanKey: string, cfg: RuleConfig,
                  parse: string -> Option<real>, show: Cell -> string): Result<seq<AnomalyRecord>>
  {
    if IsEmpty(baselines) then Ok([])
    else if spanKey !in f.columns then Err(MissingColumn(spanKey))
    else
      Ok(AllRecords(Prepared(f, spanKey, parse, show).rows, Lookup(baselines.rows, spanKey, show), spanKey,
                    f.columns, cfg))
  }

  /** The loops of detect_anomalies_baseline: baseline_lookup is filled row
      by row, then each row of df2 appends its records. */
  method DetectAnomaliesBaseline(f: Frame, baselines: Frame, spanKey: string, cfg: RuleConfig,
                                 parse: string -> Option<real>, show: Cell -> string)
    returns (r: Result<seq<AnomalyRecord>>)
    ensures r == Detect(f, baselines, spanKey, cfg, parse, show)
  {
    if IsEmpty(baselines) {
      return Ok([]);
    }
    if spanKey !in f.columns {
      return Err(MissingColumn(spanKey));
    }
    var df2 := StringifyColumn(f, spanKey, show);
    if QCol in df2.columns {
      df2 := CoerceColumn(df2, QCol, parse);
    }
    if CdCol in df2.columns {
      df2 := CoerceColumn(df2, CdCol, parse);
    }
    if OsnrCol in df2.columns {
      df2 := CoerceColumn(df2, OsnrCol, parse);
    }
    assert df2 == Prepared(f, spanKey, parse, show);
    var lookup := BuildLookup(baselines.rows, spanKey, show);
    var recs := ApplyRules(df2.rows, lookup, spanKey, f.columns, cfg);
    return Ok(recs);
  }

  /** The baseline lookup keyed by the span's string, later rows winning. */
  method BuildLookup(rows: seq<Row>, spanKey: string, show: Cell -> string) returns (lookup: map<string, Row>)
    ensures lookup == Lookup(rows, spanKey, show)
  {
    lookup := map[];
    for i := 0 to |rows|
      invariant lookup == Lookup(rows[..i], spanKey, show)
    {
      assert rows[..i + 1][..i] == rows[..i];
      var row := rows[i];
      lookup := lookup[show(Get(row, spanKey)) := row - {spanKey}];
    }
    assert rows[..|rows|] == rows;
  }

  /** The row loop: each row's records, in row order. */
  method ApplyRules(rows: seq<Row>, lookup: map<string, Row>, spanKey: string, columns: seq<string>,
                    cfg: RuleConfig) returns (recs: seq<AnomalyRecord>)
    ensures recs == AllRecords(rows, lookup, spanKey, columns, cfg)
  {
    recs := [];
    for i := 0 to |rows|
      invariant recs == AllRecords(rows[..i], lookup, spanKey, columns, cfg)
    {
      assert rows[..i + 1][..i] == rows[..i];
      recs := recs + RowRecords(rows[i], lookup, spanKey, columns, cfg);
    }
    assert rows[..|rows|] == rows;
  }

  // ---- properties of detect_anomalies_baseline ----

  predicate RuleColumn(c: string) { c == QCol || c == CdCol || c == OsnrCol }

  /** df2 row by row: the span cell is its string, each rule column of the
      frame holds its coerced cell, and every other cell is as it was. */
  lemma PreparedAt(f: Frame, spanKey: string, parse: string -> Option<real>, show: Cell -> string,
                   i: nat, c: string)
    requires i < |f.rows| && !RuleColumn(spanKey)
    ensures var row := Prepared(f, spanKey, parse, show).rows[i];
            && Get(row, spanKey) == Text(show(Get(f.rows[i], spanKey)))
            && (c != spanKey ==> Get(row, c) == if RuleColumn(c) && c in f.columns
                                                then CoerceCell(parse, Get(f.rows[i], c))
                                                else Get(f.rows[i], c))
  {
  }

  /** A span string has a baseline exactly when some baseline row shows as
      it, and then the baseline is the last such row without its span. */
  lemma {:induction false} LookupAt(rows: seq<Row>, spanKey: string, show: Cell -> string, s: string)
    ensures s in Lookup(rows, spanKey, show) <==> exists j :: 0 <= j < |rows| && show(Get(rows[j], spanKey)) == s
    ensures s in Lookup(rows, spanKey, show) ==>
              exists j :: 0 <= j < |rows| && show(Get(rows[j], spanKey)) == s
                          && Lookup(rows, spanKey, show)[s] == rows[j] - {spanKey}
                          && forall j' :: j < j' < |rows| ==> show(Get(rows[j'], spanKey)) != s
  {
    if rows != [] {
      var n := |rows| - 1;
      LookupAt(rows[..n], spanKey, show, s);
      if show(Get(rows[n], spanKey)) != s {
        if s in Lookup(rows[..n], spanKey, show) {
          var j :| 0 <= j < n && show(Get(rows[..n][j], spanKey)) == s
                   && Lookup(rows[..n], spanKey, show)[s] == rows[..n][j] - {spanKey}
                   && forall j' :: j < j' < n ==> show(Get(rows[..n][j'], spanKey)) != s;
          assert rows[..n][j] == rows[j];
          forall j' | j < j' < |rows| ensures show(Get(rows[j'], spanKey)) != s {
            if j' < n { assert rows[..n][j'] == rows[j']; }
          }
        }
        if exists j :: 0 <= j < |rows| && show(Get(rows[j], spanKey)) == s {
          var j :| 0 <= j < |rows| && show(Get(rows[j], spanKey)) == s;
          assert rows[..n][j] == rows[j];
        }
      }
    }
  }

  /** The records of the rows are exactly the records of each row. */
  lemma AllRecordsExact(rows: seq<Row>, lookup: map<string, Row>, spanKey: string,
                        columns: seq<string>, cfg: RuleConfig, a: AnomalyRecord)
    ensures a in AllRecords(rows, lookup, spanKey, columns, cfg)
            <==> exists i :: 0 <= i < |rows| && a in RowRecords(rows[i], lookup, spanKey, columns, cfg)
  {
    ConcatExact(rows, RecordsOf(lookup, spanKey, columns, cfg), a);
  }

  /** A row gives at most one record per rule, in the order Q-factor, CD,
      OSNR, and none when its span has no baseline. */
  lemma RowRecordsShape(row: Row, lookup: map<string, Row>, spanKey: string, columns: seq<string>,
                        cfg: RuleConfig)
    ensures var recs := RowRecords(row, lookup, spanKey, columns, cfg);
            && |recs| <= 3
            && (forall a :: a in recs ==> Get(row, spanKey) == Text(a.span) && a.span in lookup)
            && (forall j, k :: 0 <= j < k < |recs| ==> KpiRank(recs[j].kpi) < KpiRank(recs[k].kpi))
  {
  }

  function KpiRank(kpi: string): nat
  {
    if kpi == "qfactor" then 0 else if kpi == "cd" then 1 else 2
  }

  /** The record of one rule among a row's records, if it fired. */
  predicate HasRecord(recs: seq<AnomalyRecord>, kpi: string)
  {
    exists a :: a in recs && a.kpi == kpi
  }

  /** Q-factor drop on row i of the input, whose span has the baseline
      `base`: the row is flagged exactly when its Q-factor parses to a
      number strictly below the span's median Q-factor minus q_drop_db, and
      the record carries that number, the median and the margin. */
  lemma QDropOnRow(f: Frame, lookup: map<string, Row>, spanKey: string, cfg: RuleConfig,
                   parse: string -> Option<real>, show: Cell -> string, i: nat)
    requires i < |f.rows| && !RuleColumn(spanKey)
    requires show(Get(f.rows[i], spanKey)) in lookup
    ensures var base := lookup[show(Get(f.rows[i], spanKey))];
            var v := Coerce(parse, Get(f.rows[i], QCol));
            var recs := RowRecords(Prepared(f, spanKey, parse, show).rows[i], lookup, spanKey, f.columns, cfg);
            && (HasRecord(recs, "qfactor")
                <==> QCol in f.columns && v.Some? && MedianIn(base, QCol).Some?
                     && v.value < MedianIn(base, QCol).value - cfg.qDropDb)
            && (forall a :: a in recs && a.kpi == "qfactor" ==>
                  a.col == QCol && v == Some(a.value) && a.baseline == MedianIn(base, QCol)
                  && a.reason == QDrop(cfg.qDropDb))
  {
    PreparedAt(f, spanKey, parse, show, i, QCol);
    PreparedAt(f, spanKey, parse, show, i, CdCol);
    PreparedAt(f, spanKey, parse, show, i, OsnrCol);
  }

  /** CD drift on row i of the input, whose span has the baseline `base`:
      the row is flagged exactly when its CD parses to a number strictly
      farther than cd_drift from the span's median CD, on either side. */
  lemma CdDriftOnRow(f: Frame, lookup: map<string, Row>, spanKey: string, cfg: RuleConfig,
                     parse: string -> Option<real>, show: Cell -> string, i: nat)
    requires i < |f.rows| && !RuleColumn(spanKey)
    requires show(Get(f.rows[i], spanKey)) in lookup
    ensures var base := lookup[show(Get(f.rows[i], spanKey))];
            var v := Coerce(parse, Get(f.rows[i], CdCol));
            var m := MedianIn(base, CdCol);
            var recs := RowRecords(Prepared(f, spanKey, parse, show).rows[i], lookup, spanKey, f.columns, cfg);
            && (HasRecord(recs, "cd")
                <==> CdCol in f.columns && v.Some? && m.Some?
                     && (v.value > m.value + cfg.cdDrift || v.value < m.value - cfg.cdDrift))
            && (forall a :: a in recs && a.kpi == "cd" ==>
                  a.col == CdCol && v == Some(a.value) && a.baseline == m && a.reason == CdDrift(cfg.cdDrift))
  {
    PreparedAt(f, spanKey, parse, show, i, QCol);
    PreparedAt(f, spanKey, parse, show, i, CdCol);
    PreparedAt(f, spanKey, parse, show, i, OsnrCol);
  }

  /** OSNR floor on row i of the input, whose span has a baseline: the row
      is flagged exactly when osnr_min is given and its OSNR parses to a
      number strictly below it, whatever the baseline holds; the record
      reports the span's median OSNR when there is one. */
  lemma OsnrFloorOnRow(f: Frame, lookup: map<string, Row>, spanKey: string, cfg: RuleConfig,
                       parse: string -> Option<real>, show: Cell -> string, i: nat)
    requires i < |f.rows| && !RuleColumn(spanKey)
    requires show(Get(f.rows[i], spanKey)) in lookup
    ensures var base := lookup[show(Get(f.rows[i], spanKey))];
            var v := Coerce(parse, Get(f.rows[i], OsnrCol));
            var recs := RowRecords(Prepared(f, spanKey, parse, show).rows[i], lookup, spanKey, f.columns, cfg);
            && (HasRecord(recs, "osnr")
                <==> OsnrCol in f.columns && cfg.osnrMin.Some? && v.Some? && v.value < cfg.osnrMin.value)
            && (forall a :: a in recs && a.kpi == "osnr" ==>
                  a.col == OsnrCol && v == Some(a.value) && a.baseline == MedianIn(base, OsnrCol)
                  && a.reason == OsnrBelowMin(cfg.osnrMin.value))
  {
    PreparedAt(f, spanKey, parse, show, i, QCol);
    PreparedAt(f, spanKey, parse, show, i, CdCol);
    PreparedAt(f, spanKey, parse, show, i, OsnrCol);
  }

  /** A row whose span string has no baseline row is skipped. */
  lemma UnknownSpanSkipped(f: Frame, baselines: Frame, spanKey: string, cfg: RuleConfig,
                           parse: string -> Option<real>, show: Cell -> string, i: nat)
    requires i < |f.rows| && !RuleColumn(spanKey)
    requires forall j :: 0 <= j < |baselines.rows| ==>
               show(Get(baselines.rows[j], spanKey)) != show(Get(f.rows[i], spanKey))
    ensures RowRecords(Prepared(f, spanKey, parse, show).rows[i], Lookup(baselines.rows, spanKey, show),
                       spanKey, f.columns, cfg) == []
  {
    PreparedAt(f, spanKey, parse, show, i, spanKey);
    LookupAt(baselines.rows, spanKey, show, show(Get(f.rows[i], spanKey)));
  }

  /** Every record of a run comes from one input row whose span has a
      baseline row, and carries that row's span string. */
  lemma DetectRecordsFromRows(f: Frame, baselines: Frame, spanKey: string, cfg: RuleConfig,
                              parse: string -> Option<real>, show: Cell -> string, a: AnomalyRecord)
    requires !RuleColumn(spanKey)
    requires Detect(f, baselines, spanKey, cfg, parse, show).Ok?
    requires a in Detect(f, baselines, spanKey, cfg, parse, show).value
    ensures exists i, j :: 0 <= i < |f.rows| && 0 <= j < |baselines.rows|
                           && a.span == show(Get(f.rows[i], spanKey))
                           && show(Get(baselines.rows[j], spanKey)) == a.span
  {
    var g := Prepared(f, spanKey, parse, show);
    var lookup := Lookup(baselines.rows, spanKey, show);
    AllRecordsExact(g.rows, lookup, spanKey, f.columns, cfg, a);
    var i :| 0 <= i < |g.rows| && a in RowRecords(g.rows[i], lookup, spanKey, f.columns, cfg);
    RowRecordsShape(g.rows[i], lookup, spanKey, f.columns, cfg);
    PreparedAt(f, spanKey, parse, show, i, spanKey);
    LookupAt(baselines.rows, spanKey, show, a.span);
  }

  /** With the defaults q_drop_db = 1 and a span median of 10, a Q-factor
      of 8.5 is a drop while 9.0 (exactly on the margin) and 9.5 are not. */
  lemma QDropThreshold(cfg: RuleConfig, v: real)
    requires cfg.qDropDb == 1.0
    ensures var row: Row := map[QCol := Num(v)];
            var base: Row := map[FlatName(QCol, "median") := Num(10.0)];
            HasRecord(QRule(row, base, "span-1", [QCol], cfg), "qfactor") <==> v < 9.0
  {
  }

  /** When no KPI column is present the baseline table is empty, and
      detection against it yields no records. */
  lemma NoKpisNoAnomalies(f: Frame, spanKey: string, kpis: Option<seq<string>>,
                          parse: string -> Option<real>, std: seq<real> -> real,
                          g: Frame, cfg: RuleConfig, show: Cell -> string)
    requires forall k :: k in CandidatesOf(kpis) ==> k !in f.columns
    ensures Baselines(f, spanKey, kpis, parse, std) == Ok(Frame([], []))
    ensures Detect(g, Baselines(f, spanKey, kpis, parse, std).value, spanKey, cfg, parse, show) == Ok([])
  {
    NothingPresent(f.columns, CandidatesOf(kpis));
  }
}
