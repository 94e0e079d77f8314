/** Analysis helpers: which canonical KPIs a table carries, its time
    range, per-group counts of missing grid timestamps, the simple
    threshold detector, and per-span summary statistics. */
module Analyze {
  import opened Telemetry
  import opened Stats
  import opened Thresholds
  import opened Aggregate
  import opened Clean

  /** The canonical KPIs and the column names each may appear under, in order. */
  const KpiColumnMap: ColumnMapping := [
    ("osnr", ["ESNR-AVG", "ESNR_AVG", "OSNR", "OSNR-AVG"]),
    ("pre_fec_ber", ["PREFEC-AVG", "PRE-FEC", "PRE-FEC-AVG"]),
    ("post_fec_ber", ["POST-FEC", "POSTFEC"]),
    ("qfactor", ["QFACTOR-AVG", "QFACTOR", "QFACTOR_AVG"]),
    ("cd", ["CDR", "CDR-AVG", "CD"]),
    ("rx_power", ["OPR-AVG", "TOPR-AVG", "TOPT-AVG", "TOPRL-AVG"])
  ]

  /** A dict literal: no key twice. */
  predicate DistinctKeys(m: ColumnMapping)
  {
    forall j, j' :: 0 <= j < j' < |m| ==> m[j].0 != m[j'].0
  }

  lemma KpiColumnMapKeys()
    ensures DistinctKeys(KpiColumnMap)
  {
    var m := KpiColumnMap;
    assert m[0].0[0] == 'o' && m[1].0[0] == 'p' && m[2].0[0] == 'p' && m[3].0[0] == 'q';
    assert m[4].0[0] == 'c' && m[5].0[0] == 'r' && m[1].0[1] == 'r' && m[2].0[1] == 'o';
  }

  /** With distinct keys, the variants of a key are those of its entry. */
  lemma {:induction false} VariantsAt(m: ColumnMapping, j: nat)
    requires DistinctKeys(m) && j < |m|
    ensures Variants(m, m[j].0) == m[j].1
  {
    if j > 0 {
      assert m[0].0 != m[j].0;
      assert m[1..][j - 1] == m[j];
      VariantsAt(m[1..], j - 1);
    }
  }

  /** The variants of k in a prefix of the map are its variants in the
      whole map, unless k is the key of a later entry. */
  lemma VariantsPrefix(m: ColumnMapping, n: nat, k: string)
    requires DistinctKeys(m) && n <= |m|
    requires forall j :: n <= j < |m| ==> m[j].0 != k
    ensures Variants(m[..n], k) == Variants(m, k)
  {
    if exists j :: 0 <= j < n && m[j].0 == k {
      var j :| 0 <= j < n && m[j].0 == k;
      assert m[..n][j] == m[j];
      VariantsAt(m[..n], j);
      VariantsAt(m, j);
    } else {
      assert forall j :: 0 <= j < n ==> m[..n][j].0 != k;
      assert forall j :: 0 <= j < |m| ==> m[j].0 != k;
    }
  }

  // ---- infer_kpis_present ----

  /** The KPIs with at least one variant among the columns, in map order. */
  function PresentKpis(m: ColumnMapping, columns: seq<string>): seq<string>
  {
    if m == [] then []
    else
      var n := |m| - 1;
      PresentKpis(m[..n], columns) + if FirstPresent(m[n].1, columns).Some? then [m[n].0] else []
  }

  /** A KPI is listed exactly when one of its variants is a column. */
  lemma {:induction false} PresentKpisExact(m: ColumnMapping, columns: seq<string>, k: string)
    ensures k in PresentKpis(m, columns)
            <==> exists j :: 0 <= j < |m| && m[j].0 == k && exists v :: v in m[j].1 && v in columns
  {
    if m != [] {
      var n := |m| - 1;
      PresentKpisExact(m[..n], columns, k);
      if k in PresentKpis(m[..n], columns) {
        var j :| 0 <= j < n && m[..n][j].0 == k && exists v :: v in m[..n][j].1 && v in columns;
        assert m[..n][j] == m[j];
      }
      if exists j :: 0 <= j < |m| && m[j].0 == k && exists v :: v in m[j].1 && v in columns {
        var j :| 0 <= j < |m| && m[j].0 == k && exists v :: v in m[j].1 && v in columns;
        if j < n {
          assert m[..n][j] == m[j];
        }
      }
    }
  }

  /** Each KPI is listed at most once. */
  lemma {:induction false} PresentKpisOnce(m: ColumnMapping, columns: seq<string>)
    requires DistinctKeys(m)
    ensures Distinct(PresentKpis(m, columns))
  {
    if m != [] {
      var n := |m| - 1;
      PresentKpisOnce(m[..n], columns);
      assert forall j :: 0 <= j < n ==> m[..n][j].0 != m[n].0;
      PresentKpisExact(m[..n], columns, m[n].0);
    }
  }

  /** r lists the KPIs of m at the increasing positions idx, each with a
      variant among the columns, and every such entry has its position in idx. */
  predicate ListedInOrder(r: seq<string>, m: ColumnMapping, columns: seq<string>, idx: seq<nat>)
  {
    && |idx| == |r| && Increasing(idx)
    && (forall i :: 0 <= i < |idx| ==> idx[i] < |m| && m[idx[i]].0 == r[i] && FirstPresent(m[idx[i]].1, columns).Some?)
    && (forall j :: 0 <= j < |m| && FirstPresent(m[j].1, columns).Some? ==> j in idx)
  }

  /** The present KPIs come in map order: exactly the entries with a
      variant among the columns, in the order the map lists them. */
  lemma {:induction false} PresentKpisOrder(m: ColumnMapping, columns: seq<string>)
    ensures exists idx :: ListedInOrder(PresentKpis(m, columns), m, columns, idx)
  {
    if m == [] {
      assert ListedInOrder(PresentKpis(m, columns), m, columns, []);
    } else {
      var n := |m| - 1;
      var init := m[..n];
      PresentKpisOrder(init, columns);
      var idx0 :| ListedInOrder(PresentKpis(init, columns), init, columns, idx0);
      assert m == init + [m[n]];
      var idx := ListedStep(PresentKpis(init, columns), init, m[n], columns, idx0);
      assert ListedInOrder(PresentKpis(m, columns), m, columns, idx);
    }
  }

  /** One more entry extends the listed positions by its own when one of
      its variants is a column. */
  lemma ListedStep(r: seq<string>, init: ColumnMapping, e: (string, seq<string>), columns: seq<string>, idx0: seq<nat>)
    returns (idx: seq<nat>)
    requires ListedInOrder(r, init, columns, idx0)
    ensures ListedInOrder(r + if FirstPresent(e.1, columns).Some? then [e.0] else [], init + [e], columns, idx)
  {
    var n := |init|;
    var m := init + [e];
    ListedPositions(r, init, e, columns, idx0);
    if FirstPresent(e.1, columns).Some? {
      idx := idx0 + [n];
      forall j | 0 <= j < |m| && FirstPresent(m[j].1, columns).Some? ensures j in idx {
        if j < n {
          assert m[j] == init[j];
          assert j in idx0;
        } else {
          assert idx[|idx0|] == j;
        }
      }
    } else {
      idx := idx0;
      forall j | 0 <= j < |m| && FirstPresent(m[j].1, columns).Some? ensures j in idx {
        assert m[j] == init[j];
      }
    }
  }

  /** The old positions still point at the same entries after one more. */
  lemma ListedPositions(r: seq<string>, init: ColumnMapping, e: (string, seq<string>), columns: seq<string>, idx0: seq<nat>)
    requires ListedInOrder(r, init, columns, idx0)
    ensures forall i :: 0 <= i < |idx0| ==> idx0[i] < |init| && (init + [e])[idx0[i]] == init[idx0[i]]
  {
  }

  /** infer_kpis_present with its nested loop and break. */
  method InferKpisPresent(columns: seq<string>) returns (found: seq<string>)
    ensures found == PresentKpis(KpiColumnMap, columns)
  {
    found := [];
    for i := 0 to |KpiColumnMap|
      invariant found == PresentKpis(KpiColumnMap[..i], columns)
    {
      assert KpiColumnMap[..i + 1][..i] == KpiColumnMap[..i];
      var (k, variants) := KpiColumnMap[i];
      var col := FindColumn(variants, columns);
      if col.Some? {
        found := found + [k];
      }
    }
    assert KpiColumnMap[..|KpiColumnMap|] == KpiColumnMap;
  }

  // ---- compute_time_range ----

  /** start and end as instants (isoformat is not modelled), and the count. */
  datatype TimeRange = TimeRange(start: Option<int>, end: Option<int>, count: nat)

  /** compute_time_range: indexing the timestamp column fails without it. */
  function ComputeTimeRange(f: Frame): Result<TimeRange>
  {
    if TimeCol !in f.columns then Err(MissingColumn(TimeCol))
    else
      var inst := Instants(Stamps(f.rows));
      if inst == [] then Ok(TimeRange(None, None, 0))
      else Ok(TimeRange(Some(MinInt(inst)), Some(MaxInt(inst)), |inst|))
  }

  lemma {:induction false} InstantsAll(ts: seq<Option<int>>)
    ensures |Instants(ts)| == |ts| <==> forall i :: 0 <= i < |ts| ==> ts[i].Some?
  {
    if ts != [] {
      var n := |ts| - 1;
      InstantsAll(ts[..n]);
      assert forall i :: 0 <= i < n ==> ts[..n][i] == ts[i];
    }
  }

  /** The count is the number of rows with a valid timestamp: zero, with
      no start and end, exactly when every timestamp is missing, and all
      rows exactly when none is. */
  lemma TimeRangeCount(f: Frame)
    requires TimeCol in f.columns
    ensures var r := ComputeTimeRange(f).value;
            && r.count == |Instants(Stamps(f.rows))| <= |f.rows|
            && r.count + multiset(Stamps(f.rows))[None] == |f.rows|
            && (r.count == 0 <==> r.start.None?) && r.start.None? == r.end.None?
            && (r.start.None? <==> forall i :: 0 <= i < |f.rows| ==> AsTime(Get(f.rows[i], TimeCol)).None?)
            && (r.count == |f.rows| <==> forall i :: 0 <= i < |f.rows| ==> AsTime(Get(f.rows[i], TimeCol)).Some?)
  {
    var st := Stamps(f.rows);
    var inst := Instants(st);
    InstantsAll(st);
    InstantsCount(st);
    assert forall i :: 0 <= i < |f.rows| ==> st[i] == AsTime(Get(f.rows[i], TimeCol));
  }

  /** start and end are valid timestamps of the table, start <= end, and
      every valid timestamp lies between them. */
  lemma TimeRangeBounds(f: Frame)
    requires TimeCol in f.columns && ComputeTimeRange(f).value.start.Some?
    ensures var r := ComputeTimeRange(f).value;
            && r.end.Some? && r.start.value <= r.end.value
            && (exists i :: 0 <= i < |f.rows| && AsTime(Get(f.rows[i], TimeCol)) == r.start)
            && (exists i :: 0 <= i < |f.rows| && AsTime(Get(f.rows[i], TimeCol)) == r.end)
            && forall i :: 0 <= i < |f.rows| && AsTime(Get(f.rows[i], TimeCol)).Some? ==>
                 r.start.value <= AsTime(Get(f.rows[i], TimeCol)).value <= r.end.value
  {
    var st := Stamps(f.rows);
    var inst := Instants(st);
    forall i | 0 <= i < |f.rows| && AsTime(Get(f.rows[i], TimeCol)).Some?
      ensures AsTime(Get(f.rows[i], TimeCol)).value in inst
    {
      assert st[i] == AsTime(Get(f.rows[i], TimeCol));
    }
    var lo := MinInt(inst);
    var hi := MaxInt(inst);
    assert Some(lo) in st && Some(hi) in st;
    var a :| 0 <= a < |st| && st[a] == Some(lo);
    var b :| 0 <= b < |st| && st[b] == Some(hi);
    assert AsTime(Get(f.rows[a], TimeCol)) == Some(lo);
    assert AsTime(Get(f.rows[b], TimeCol)) == Some(hi);
  }

  // ---- detect_missing_timestamps ----

  /** One output row: the group key, the grid slots from the group's first
      to its last timestamp, the distinct timestamps seen, and the difference. */
  datatype GapRow = GapRow(group: seq<Cell>, expected: nat, observed: nat, missing: int)

  /** The three counts of one group's valid timestamps. */
  function GapCounts(inst: seq<int>, cadence: nat): (nat, nat)
    requires inst != [] && cadence > 0
  {
    (|Grid(MinInt(inst), MaxInt(inst), cadence)|, |Dedup(inst)|)
  }

  /** The row of one group; a group with no valid timestamp has none. */
  function GapRowOf(g: seq<Row>, key: seq<Cell>, cadence: nat): Option<GapRow>
    requires cadence > 0
  {
    var inst := Instants(Stamps(g));
    if inst == [] then None
    else
      var counts := GapCounts(inst, cadence);
      Some(GapRow(key, counts.0, counts.1, counts.0 - counts.1))
  }

  /** The row of each group, as a function of its key. */
  function GroupGap(rows: seq<Row>, groupBy: seq<string>, cadence: nat): seq<Cell> -> seq<GapRow>
    requires cadence > 0
  {
    key => match GapRowOf(GroupRows(rows, groupBy, key), key, cadence) case Some(r) => [r] case None => []
  }

  function Gaps(rows: seq<Row>, groupBy: seq<string>, keys: seq<seq<Cell>>, cadence: nat): seq<GapRow>
    requires cadence > 0
  {
    Concat(keys, GroupGap(rows, groupBy, cadence))
  }

  /** detect_missing_timestamps: groupby needs key columns that exist, and
      the first group reads the timestamp column. */
  function MissingTimestamps(f: Frame, groupBy: seq<string>, cadence: nat): Result<seq<GapRow>>
    requires cadence > 0
  {
    if groupBy == [] then Err(NoGroupKeys)
    else if FirstMissing(groupBy, f.columns).Some? then Err(MissingColumn(FirstMissing(groupBy, f.columns).value))
    else
      var keys := GroupKeys(f.rows, groupBy);
      if keys != [] && TimeCol !in f.columns then Err(MissingColumn(TimeCol))
      else Ok(Gaps(f.rows, groupBy, keys, cadence))
  }

  /** detect_missing_timestamps with its loop over the groups. */
  method DetectMissingTimestamps(f: Frame, groupBy: seq<string>, cadence: nat) returns (r: Result<seq<GapRow>>)
    requires cadence > 0
    ensures r == MissingTimestamps(f, groupBy, cadence)
  {
    if groupBy == [] {
      return Err(NoGroupKeys);
    }
    var missing := FirstMissing(groupBy, f.columns);
    if missing.Some? {
      return Err(MissingColumn(missing.value));
    }
    var keys := GroupKeys(f.rows, groupBy);
    // The first group's timestamp lookup fails when the column is absent.
    if keys != [] && TimeCol !in f.columns {
      return Err(MissingColumn(TimeCol));
    }
    var outRows: seq<GapRow> := [];
    for i := 0 to |keys|
      invariant outRows == Gaps(f.rows, groupBy, keys[..i], cadence)
    {
      GapsStep(f.rows, groupBy, keys, cadence, i);
      var row := GapRowOf(GroupRows(f.rows, groupBy, keys[i]), keys[i], cadence);
      if row.Some? {
        outRows := outRows + [row.value];
      }
    }
    assert keys[..|keys|] == keys;
    return Ok(outRows);
  }

  /** One more group appends that group's row, if it has one. */
  lemma GapsStep(rows: seq<Row>, groupBy: seq<string>, keys: seq<seq<Cell>>, cadence: nat, i: nat)
    requires cadence > 0 && i < |keys|
    ensures var row := GapRowOf(GroupRows(rows, groupBy, keys[i]), keys[i], cadence);
            Gaps(rows, groupBy, keys[..i + 1], cadence)
            == Gaps(rows, groupBy, keys[..i], cadence) + if row.Some? then [row.value] else []
  {
    assert keys[..i + 1][..i] == keys[..i];
  }

  /** A row is reported for exactly the groups with a valid timestamp,
      single-timestamp groups included. */
  lemma GapsExact(rows: seq<Row>, groupBy: seq<string>, keys: seq<seq<Cell>>, cadence: nat, r: GapRow)
    requires cadence > 0
    ensures r in Gaps(rows, groupBy, keys, cadence)
            <==> exists i :: 0 <= i < |keys| && GapRowOf(GroupRows(rows, groupBy, keys[i]), keys[i], cadence) == Some(r)
  {
    ConcatExact(keys, GroupGap(rows, groupBy, cadence), r);
  }

  /** A group whose valid timestamps are all the same instant, a single
      timestamp in particular, expects 1, observes 1 and misses 0. */
  lemma GapSingleInstant(inst: seq<int>, cadence: nat)
    requires inst != [] && cadence > 0 && forall i :: 0 <= i < |inst| ==> inst[i] == inst[0]
    ensures GapCounts(inst, cadence) == (1, 1)
  {
    var d := Dedup(inst);
    assert (set x | x in d) == {inst[0]};
    DistinctCard(d);
  }

  /** A sequence without repeats has as many elements as its set. */
  lemma {:induction false} DistinctCard(s: seq<int>)
    requires Distinct(s)
    ensures |set x | x in s| == |s|
  {
    if s != [] {
      var n := |s| - 1;
      DistinctCard(s[..n]);
      assert (set x | x in s) == (set x | x in s[..n]) + {s[n]} by {
        assert s == s[..n] + [s[n]];
      }
      assert s[n] !in s[..n];
    }
  }

  lemma GridDistinct(lo: int, hi: int, cadence: nat)
    requires lo <= hi && cadence > 0
    ensures Distinct(Grid(lo, hi, cadence))
  {
    var g := Grid(lo, hi, cadence);
    forall i, j | 0 <= i < j < |g| ensures g[i] != g[j] {
      GridAt(lo, hi, cadence, i);
      GridAt(lo, hi, cadence, j);
      MulMonotone(i + 1, j, cadence);
    }
  }

  /** Of two sequences without repeats, the second inside the first, the
      first is longer by the number of its elements the second lacks. */
  lemma CardDifference(all: seq<int>, some: seq<int>)
    requires Distinct(all) && Distinct(some) && forall t :: t in some ==> t in all
    ensures |all| - |some| == |set t | t in all && t !in some|
  {
    var xs := set t | t in all;
    var ys := set t | t in some;
    var zs := set t | t in all && t !in some;
    assert xs == ys + zs;
    assert ys * zs == {};
    DistinctCard(all);
    DistinctCard(some);
  }

  /** Every timestamp a cadence multiple after the first is a grid point. */
  lemma OnGrid(inst: seq<int>, cadence: nat, t: int)
    requires inst != [] && cadence > 0 && t in inst && (t - MinInt(inst)) % cadence == 0
    ensures t in Grid(MinInt(inst), MaxInt(inst), cadence)
  {
    var lo := MinInt(inst);
    var hi := MaxInt(inst);
    DivisionExact(t - lo, cadence, hi - lo);
    GridAt(lo, hi, cadence, (t - lo) / cadence);
  }

  /** When every observed timestamp is a grid point, missing_count is the
      number of grid points never observed, so it is never negative. */
  lemma DedupOnGrid(inst: seq<int>, cadence: nat)
    requires inst != [] && cadence > 0
    requires forall i :: 0 <= i < |inst| ==> (inst[i] - MinInt(inst)) % cadence == 0
    ensures forall t :: t in Dedup(inst) ==> t in Grid(MinInt(inst), MaxInt(inst), cadence)
  {
    var grid := Grid(MinInt(inst), MaxInt(inst), cadence);
    forall i | 0 <= i < |inst| ensures inst[i] in grid {
      OnGrid(inst, cadence, inst[i]);
    }
    assert forall t :: t in Dedup(inst) ==> t in inst;
  }

  /** The slots of `all` never seen number |all| - |some| when `some` is
      the distinct part of `seen` and lies within `all`. */
  lemma UnseenCard(all: seq<int>, some: seq<int>, seen: seq<int>)
    requires Distinct(all) && Distinct(some)
    requires forall t :: t in some ==> t in all
    requires forall t :: t in some <==> t in seen
    ensures |all| - |some| == |set t | t in all && t !in seen|
  {
    CardDifference(all, some);
    var missing := set t | t in all && t !in some;
    var unseen := set t | t in all && t !in seen;
    forall t | t in all ensures t in some <==> t in seen { }
    assert missing == unseen;
  }

  lemma GapCountsUnobserved(inst: seq<int>, cadence: nat)
    requires inst != [] && cadence > 0
    requires forall i :: 0 <= i < |inst| ==> (inst[i] - MinInt(inst)) % cadence == 0
    ensures var grid := Grid(MinInt(inst), MaxInt(inst), cadence);
            GapCounts(inst, cadence).0 - GapCounts(inst, cadence).1 == |set t | t in grid && t !in inst| >= 0
  {
    var grid := Grid(MinInt(inst), MaxInt(inst), cadence);
    DedupOnGrid(inst, cadence);
    GridDistinct(MinInt(inst), MaxInt(inst), cadence);
    UnseenCard(grid, Dedup(inst), inst);
  }



  /** Each timestamp is one cadence after the previous one. */
  predicate EvenlySpaced(inst: seq<int>, cadence: nat)
  {
    forall j :: 0 < j < |inst| ==> inst[j] == inst[j - 1] + cadence
  }

  /** In a run of timestamps each one cadence after the previous, the
      i-th is i cadences after the first. */
  lemma {:induction false} EvenlySpacedAt(inst: seq<int>, cadence: nat, i: nat)
    requires EvenlySpaced(inst, cadence)
    requires i < |inst|
    ensures inst[i] == inst[0] + i * cadence
  {
    if i > 0 {
      EvenlySpacedAt(inst, cadence, i - 1);
    }
  }

  /** A run spaced one cadence apart is strictly increasing. */
  lemma EvenlySpacedIncreasing(inst: seq<int>, cadence: nat)
    requires cadence > 0
    requires EvenlySpaced(inst, cadence)
    ensures forall i, j :: 0 <= i < j < |inst| ==> inst[i] < inst[j]
  {
    forall i, j | 0 <= i < j < |inst| ensures inst[i] < inst[j] {
      EvenlySpacedAt(inst, cadence, i);
      EvenlySpacedAt(inst, cadence, j);
      MulMonotone(i + 1, j, cadence);
    }
  }

  lemma MultipleQuotient(m: nat, c: nat)
    requires c > 0
    ensures (m * c) / c == m
  {
    var q := (m * c) / c;
    assert q * c + (m * c) % c == m * c;
    assert q >= 0;
    if q < m {
      MulMonotone(q + 1, m, c);
      assert false;
    } else if q > m {
      MulMonotone(m + 1, q, c);
      assert false;
    }
  }

  /** A strictly increasing run starts at its minimum and ends at its maximum. */
  lemma IncreasingEnds(s: seq<int>)
    requires s != [] && forall i, j :: 0 <= i < j < |s| ==> s[i] < s[j]
    ensures MinInt(s) == s[0] && MaxInt(s) == s[|s| - 1]
  {
    var a :| 0 <= a < |s| && s[a] == MinInt(s);
    var b :| 0 <= b < |s| && s[b] == MaxInt(s);
    assert a == 0 || s[0] < s[a];
    assert b == |s| - 1 || s[b] < s[|s| - 1];
  }

  /** N timestamps spaced exactly one cadence apart expect N slots, observe
      N distinct timestamps and miss none. */
  lemma GapEvenlySpaced(inst: seq<int>, cadence: nat)
    requires inst != [] && cadence > 0
    requires EvenlySpaced(inst, cadence)
    ensures GapCounts(inst, cadence) == (|inst|, |inst|)
  {
    var n := |inst|;
    EvenlySpacedIncreasing(inst, cadence);
    DedupOfDistinct(inst);
    IncreasingEnds(inst);
    EvenlySpacedAt(inst, cadence, n - 1);
    MultipleQuotient(n - 1, cadence);
    assert MaxInt(inst) - MinInt(inst) == (n - 1) * cadence;
  }

  /** Off-grid timestamps make missing_count negative: two samples one
      second apart on a 15-minute cadence expect 1 slot and observe 2. */
  lemma GapOffGrid()
    ensures GapCounts([0, 1], 900) == (1, 2)
  {
    assert MinInt([0, 1]) == 0 && MaxInt([0, 1]) == 1;
    assert Dedup([0, 1]) == [0, 1] by {
      DedupOfDistinct([0, 1]);
    }
  }

  // ---- detect_anomalies_simple ----

  /** The KPI-to-column dict: each KPI with a present variant maps to the
      first such variant. */
  function ColMap(m: ColumnMapping, columns: seq<string>): map<string, string>
  {
    if m == [] then map[]
    else
      var n := |m| - 1;
      var init := ColMap(m[..n], columns);
      match FirstPresent(m[n].1, columns)
      case None => init
      case Some(v) => init[m[n].0 := v]
  }

  /** The dict holds a KPI exactly when the KPI has a column, and then holds
      that column: the first variant present, in map order. */
  lemma {:induction false} ColMapAt(m: ColumnMapping, columns: seq<string>, k: string)
    requires DistinctKeys(m)
    ensures k in ColMap(m, columns) <==> ColumnFor(m, k, columns).Some?
    ensures k in ColMap(m, columns) ==> ColMap(m, columns)[k] == ColumnFor(m, k, columns).value
  {
    if m != [] {
      var n := |m| - 1;
      var init := m[..n];
      assert forall j :: 0 <= j < n ==> init[j] == m[j];
      assert DistinctKeys(init);
      ColMapAt(init, columns, k);
      if k == m[n].0 {
        VariantsAt(m, n);
        assert forall j :: 0 <= j < n ==> init[j].0 != k;
      } else {
        VariantsPrefix(m, n, k);
      }
    }
  }

  /** detect_anomalies_simple: the column dict is filled by a loop with
      break, then each threshold entry whose KPI has a column has its "min"
      and then "max" breaches appended. */
  method DetectAnomaliesSimple(f: Frame, thresholds: ThresholdTable, parse: string -> Option<real>)
    returns (res: seq<Breach>)
    ensures res == TableBreaches(f, thresholds, KpiColumnMap, parse)
  {
    var colMap: map<string, string> := map[];
    for i := 0 to |KpiColumnMap|
      invariant colMap == ColMap(KpiColumnMap[..i], f.columns)
    {
      assert KpiColumnMap[..i + 1][..i] == KpiColumnMap[..i];
      var (k, variants) := KpiColumnMap[i];
      var col := FindColumn(variants, f.columns);
      if col.Some? {
        colMap := colMap[k := col.value];
      }
    }
    assert KpiColumnMap[..|KpiColumnMap|] == KpiColumnMap;
    KpiColumnMapKeys();
    res := [];
    for t := 0 to |thresholds|
      invariant res == TableBreaches(f, thresholds[..t], KpiColumnMap, parse)
    {
      assert thresholds[..t + 1][..t] == thresholds[..t];
      var (k, cond) := thresholds[t];
      ColMapAt(KpiColumnMap, f.columns, k);
      if k in colMap {
        res := AppendKpiBreaches(f, k, cond, colMap[k], parse, res);
      }
    }
    assert thresholds[..|thresholds|] == thresholds;
  }

  /** A threshold on a KPI the map does not know never fires, and every
      breach is checked on a present variant of its KPI. */
  lemma SimpleUsesMappedColumns(f: Frame, table: ThresholdTable, parse: string -> Option<real>, b: Breach)
    requires b in TableBreaches(f, table, KpiColumnMap, parse)
    ensures exists j :: 0 <= j < |KpiColumnMap| && KpiColumnMap[j].0 == b.kpi
    ensures b.col in Variants(KpiColumnMap, b.kpi) && b.col in f.columns
  {
    TableBreachesExact(f, table, KpiColumnMap, parse, b);
    var vs := Variants(KpiColumnMap, b.kpi);
    assert vs != [];
  }

  // ---- summarize_by_span ----

  /** The aggregations asked for each KPI column. */
  const SummaryStats: seq<Stat> := [MeanOf, MinOf, MaxOf, StdOf]

  /** The column a KPI contributes to the aggregation dict, if any. */
  function KpiColumn(m: ColumnMapping, columns: seq<string>): string -> seq<string>
  {
    k => match ColumnFor(m, k, columns) case Some(v) => [v] case None => []
  }

  /** The keys of the aggregation dict, in insertion order. */
  function SummaryColumns(m: ColumnMapping, columns: seq<string>): seq<string>
  {
    Dedup(Concat(PresentKpis(m, columns), KpiColumn(m, columns)))
  }

  /** summarize_by_span: nothing when no KPI column is present; otherwise
      the span's groups with every KPI column's mean, min, max and std. */
  function Summary(f: Frame, spanKey: string, std: seq<real> -> real): Result<Frame>
  {
    var cols := SummaryColumns(KpiColumnMap, f.columns);
    if cols == [] then Ok(Frame([], []))
    else if spanKey !in f.columns then Err(MissingColumn(spanKey))
    else Ok(GroupAgg(f, spanKey, cols, SummaryStats, std))
  }

  /** summarize_by_span with its loops filling the aggregation dict. */
  method SummarizeBySpan(f: Frame, spanKey: string, std: seq<real> -> real) returns (r: Result<Frame>)
    ensures r == Summary(f, spanKey, std)
  {
    var kpis := InferKpisPresent(f.columns);
    var each := KpiColumn(KpiColumnMap, f.columns);
    var aggCols: seq<string> := [];
    for i := 0 to |kpis|
      invariant aggCols == Dedup(Concat(kpis[..i], each))
    {
      ConcatStep(kpis, each, i);
      var col := FindColumn(Variants(KpiColumnMap, kpis[i]), f.columns);
      if col.Some? {
        DedupSnoc(Concat(kpis[..i], each), col.value);
        if col.value !in aggCols {
          aggCols := aggCols + [col.value];
        }
      } else {
        assert Concat(kpis[..i], each) + each(kpis[i]) == Concat(kpis[..i], each);
      }
    }
    assert kpis[..|kpis|] == kpis;
    if aggCols == [] {
      return Ok(Frame([], []));
    }
    if spanKey !in f.columns {
      return Err(MissingColumn(spanKey));
    }
    return Ok(GroupAgg(f, spanKey, aggCols, SummaryStats, std));
  }

  lemma KpiColumnAt(m: ColumnMapping, columns: seq<string>, k: string, c: string)
    ensures c in KpiColumn(m, columns)(k) <==> ColumnFor(m, k, columns) == Some(c)
  {
  }

  /** Every aggregated column is the first present variant of a KPI. */
  lemma SummaryColumnsSound(m: ColumnMapping, columns: seq<string>, c: string)
    requires c in SummaryColumns(m, columns)
    ensures exists j :: 0 <= j < |m| && ColumnFor(m, m[j].0, columns) == Some(c)
  {
    var kpis := PresentKpis(m, columns);
    ConcatExact(kpis, KpiColumn(m, columns), c);
    var i :| 0 <= i < |kpis| && c in KpiColumn(m, columns)(kpis[i]);
    KpiColumnAt(m, columns, kpis[i], c);
    PresentKpisExact(m, columns, kpis[i]);
    var j :| 0 <= j < |m| && m[j].0 == kpis[i] && exists v :: v in m[j].1 && v in columns;
  }

  /** The first present variant of every KPI is aggregated. */
  lemma SummaryColumnsComplete(m: ColumnMapping, columns: seq<string>, j: nat, c: string)
    requires DistinctKeys(m) && j < |m| && ColumnFor(m, m[j].0, columns) == Some(c)
    ensures c in SummaryColumns(m, columns)
  {
    var kpis := PresentKpis(m, columns);
    var k := m[j].0;
    VariantsAt(m, j);
    PresentKpisExact(m, columns, k);
    var i :| 0 <= i < |kpis| && kpis[i] == k;
    KpiColumnAt(m, columns, k, c);
    ConcatExact(kpis, KpiColumn(m, columns), c);
  }

  /** The aggregated columns are exactly the present columns that are the
      first present variant of some KPI, each once. */
  lemma SummaryColumnsExact(m: ColumnMapping, columns: seq<string>, c: string)
    requires DistinctKeys(m)
    ensures Distinct(SummaryColumns(m, columns))
    ensures c in SummaryColumns(m, columns)
            <==> exists j :: 0 <= j < |m| && ColumnFor(m, m[j].0, columns) == Some(c)
  {
    if c in SummaryColumns(m, columns) {
      SummaryColumnsSound(m, columns, c);
    }
    if exists j :: 0 <= j < |m| && ColumnFor(m, m[j].0, columns) == Some(c) {
      var j :| 0 <= j < |m| && ColumnFor(m, m[j].0, columns) == Some(c);
      SummaryColumnsComplete(m, columns, j, c);
    }
  }

  /** With no KPI variant among the columns the summary is empty. */
  lemma SummaryEmptyWithoutKpis(f: Frame, spanKey: string, std: seq<real> -> real)
    requires forall j, v :: 0 <= j < |KpiColumnMap| && v in KpiColumnMap[j].1 ==> v !in f.columns
    ensures Summary(f, spanKey, std) == Ok(Frame([], []))
  {
    var cols := SummaryColumns(KpiColumnMap, f.columns);
    KpiColumnMapKeys();
    if cols != [] {
      SummaryColumnsExact(KpiColumnMap, f.columns, cols[0]);
    }
  }

  /** In each span's row of an aggregate holding min, mean and max, a
      column with numbers in that span has min <= mean <= max. */
  lemma GroupAggOrdered(f: Frame, spanKey: string, cols: seq<string>, stats: seq<Stat>,
                        std: seq<real> -> real, i: nat, c: string)
    requires i < |GroupKeys(f.rows, [spanKey])|
    requires c in cols && MinOf in stats && MeanOf in stats && MaxOf in stats
    requires forall s :: FlatName(c, StatName(s)) != spanKey
    requires Values(GroupRows(f.rows, [spanKey], GroupKeys(f.rows, [spanKey])[i]), c) != []
    ensures var row := GroupAgg(f, spanKey, cols, stats, std).rows[i];
            var lo, mid, hi := FlatName(c, StatName(MinOf)), FlatName(c, StatName(MeanOf)), FlatName(c, StatName(MaxOf));
            && lo in row && mid in row && hi in row
            && row[lo].Num? && row[mid].Num? && row[hi].Num?
            && row[lo].x <= row[mid].x <= row[hi].x
  {
    var vs := Values(GroupRows(f.rows, [spanKey], GroupKeys(f.rows, [spanKey])[i]), c);
    var row := GroupAgg(f, spanKey, cols, stats, std).rows[i];
    GroupAggAt(f, spanKey, cols, stats, std, i, c, MinOf);
    assert row[FlatName(c, StatName(MinOf))] == Num(Min(vs));
    GroupAggAt(f, spanKey, cols, stats, std, i, c, MeanOf);
    assert row[FlatName(c, StatName(MeanOf))] == Num(Mean(vs));
    GroupAggAt(f, spanKey, cols, stats, std, i, c, MaxOf);
    assert row[FlatName(c, StatName(MaxOf))] == Num(Max(vs));
    MeanBetween(vs);
  }

  /** Each span's summary row has min <= mean <= max for every KPI column
      with numbers in that span. */
  lemma SummaryOrdered(f: Frame, spanKey: string, std: seq<real> -> real, i: nat, c: string)
    requires Summary(f, spanKey, std).Ok? && i < |Summary(f, spanKey, std).value.rows|
    requires c in SummaryColumns(KpiColumnMap, f.columns)
    requires forall s :: FlatName(c, StatName(s)) != spanKey
    requires Values(GroupRows(f.rows, [spanKey], GroupKeys(f.rows, [spanKey])[i]), c) != []
    ensures var row := Summary(f, spanKey, std).value.rows[i];
            var lo, mid, hi := FlatName(c, StatName(MinOf)), FlatName(c, StatName(MeanOf)), FlatName(c, StatName(MaxOf));
            && lo in row && mid in row && hi in row
            && row[lo].Num? && row[mid].Num? && row[hi].Num?
            && row[lo].x <= row[mid].x <= row[hi].x
  {
    var cols := SummaryColumns(KpiColumnMap, f.columns);
    assert Summary(f, spanKey, std).value == GroupAgg(f, spanKey, cols, SummaryStats, std);
    assert SummaryStats[0] == MeanOf && SummaryStats[1] == MinOf && SummaryStats[2] == MaxOf;
    GroupAggOrdered(f, spanKey, cols, SummaryStats, std, i, c);
  }
}
