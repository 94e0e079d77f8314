/** The alert rules: a default threshold table and the evaluator that turns
    a table into alert records over a frame. */
module Alerts {
  import opened Telemetry
  import opened Thresholds

  /** build_thresholds: the default table. Only the "osnr" and
      "pre_fec_ber" entries use the keys the evaluator reads. */
  function BuildThresholds(): ThresholdTable
  {
    [ ("osnr", map["min" := 15.0]),
      ("pre_fec_ber", map["max" := 0.001]),
      ("qfactor", map["min_drop_db" := 1.0]),
      ("cd", map["max_drift" := 1000.0]) ]
  }

  /** The evaluator's own KPI-to-column mapping (narrower than the one the
      analysis helpers use). */
  const AlertMapping: ColumnMapping :=
    [ ("osnr", ["ESNR-AVG", "ESNR", "OSNR-AVG", "OSNR"]),
      ("pre_fec_ber", ["PREFEC-AVG", "PRE-FEC", "PRE-FEC-AVG"]),
      ("qfactor", ["QFACTOR-AVG", "QFACTOR"]),
      ("cd", ["CDR", "CDR-AVG", "CD"]) ]

  /** evaluate_thresholds: for each table entry in order, the first mapped
      column the frame holds is coerced and its "min" and then "max"
      breaches are appended; entries with no such column are skipped. */
  method EvaluateThresholds(f: Frame, thresholds: ThresholdTable, parse: string -> Option<real>)
    returns (alerts: seq<Breach>)
    ensures alerts == TableBreaches(f, thresholds, AlertMapping, parse)
  {
    alerts := [];
    for t := 0 to |thresholds|
      invariant alerts == TableBreaches(f, thresholds[..t], AlertMapping, parse)
    {
      assert thresholds[..t + 1][..t] == thresholds[..t];
      var (k, cond) := thresholds[t];
      var col := FindColumn(Variants(AlertMapping, k), f.columns);
      if col.Some? {
        alerts := AppendKpiBreaches(f, k, cond, col.value, parse, alerts);
      }
    }
    assert thresholds[..|thresholds|] == thresholds;
  }

  /** In the default table only the "osnr" entry has a "min" bound and
      only the "pre_fec_ber" entry a "max" bound. */
  lemma DefaultBounds(j: nat)
    requires j < |BuildThresholds()|
    ensures var (k, cond) := BuildThresholds()[j];
            && ("min" in cond ==> k == "osnr" && cond["min"] == 15.0)
            && ("max" in cond ==> k == "pre_fec_ber" && cond["max"] == 0.001)
  {
    var t := BuildThresholds();
    if j == 2 {
      assert t[2].1 == map["min_drop_db" := 1.0];
    } else if j == 3 {
      assert t[3].1 == map["max_drift" := 1000.0];
    }
  }

  /** With the default table only two rules can fire: OSNR strictly below
      15.0 and pre-FEC BER strictly above 1e-3. The qfactor and cd entries
      use keys the evaluator never reads, so they never alert. */
  lemma DefaultAlerts(f: Frame, parse: string -> Option<real>, b: Breach)
    requires b in TableBreaches(f, BuildThresholds(), AlertMapping, parse)
    ensures (b.kpi == "osnr" && b.kind == BelowMin && b.value < 15.0)
         || (b.kpi == "pre_fec_ber" && b.kind == AboveMax && b.value > 0.001)
  {
    var t := BuildThresholds();
    TableBreachesExact(f, t, AlertMapping, parse, b);
    var j :| 0 <= j < |t| && t[j].0 == b.kpi && ColumnFor(AlertMapping, b.kpi, f.columns) == Some(b.col)
             && KindHolds(t[j].1, b, f, parse);
    DefaultBounds(j);
  }

  /** A KPI the mapping does not know never alerts, and an alert's column is
      always one of its KPI's mapped variants. */
  lemma AlertsUseMappedColumns(f: Frame, table: ThresholdTable, parse: string -> Option<real>, b: Breach)
    requires b in TableBreaches(f, table, AlertMapping, parse)
    ensures b.kpi in ["osnr", "pre_fec_ber", "qfactor", "cd"]
    ensures b.col in Variants(AlertMapping, b.kpi) && b.col in f.columns
  {
    TableBreachesExact(f, table, AlertMapping, parse, b);
    var vs := Variants(AlertMapping, b.kpi);
    assert vs != [];
    var j :| 0 <= j < |AlertMapping| && AlertMapping[j] == (b.kpi, vs);
  }
}
