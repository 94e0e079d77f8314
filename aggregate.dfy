/** Per-span aggregation as `df.groupby(span_key).agg({col: [stats]})`
    followed by the flattening of the column names to '<col>_<stat>':
    one output row per span, holding the span's cell and, for every column
    and statistic, that statistic of the column's numbers in the span. */
module Aggregate {
  import opened Telemetry
  import opened Stats

  datatype Stat = MedianOf | MeanOf | MinOf | MaxOf | StdOf | CountOf

  function StatName(s: Stat): string
  {
    match s
    case MedianOf => "median"
    case MeanOf => "mean"
    case MinOf => "min"
    case MaxOf => "max"
    case StdOf => "std"
    case CountOf => "count"
  }

  lemma StatNameInjective(s: Stat, t: Stat)
    requires StatName(s) == StatName(t)
    ensures s == t
  {
    assert StatName(s)[0] == StatName(t)[0];
    if StatName(s)[0] == 'm' {
      assert StatName(s)[1] == StatName(t)[1];
      if StatName(s)[1] == 'i' { assert StatName(s)[2] == StatName(t)[2]; }
    }
  }

  lemma StatNamePlain(s: Stat)
    ensures NoUnderscore(StatName(s))
  {
  }

  /** Distinct (column, statistic) pairs have distinct flattened names. */
  lemma StatColumnInjective(c: string, s: Stat, c': string, s': Stat)
    requires FlatName(c, StatName(s)) == FlatName(c', StatName(s'))
    ensures c == c' && s == s'
  {
    StatNamePlain(s);
    StatNamePlain(s');
    FlatNameInjective(c, StatName(s), c', StatName(s'));
    StatNameInjective(s, s');
  }

  /** The numbers a column holds among `rows`, in row order: the aggregates
      skip missing cells. */
  function Values(rows: seq<Row>, c: string): (vs: seq<real>)
    ensures |vs| <= |rows|
    ensures forall x :: x in vs ==> exists i :: 0 <= i < |rows| && Get(rows[i], c) == Num(x)
  {
    if rows == [] then []
    else
      var n := |rows| - 1;
      var init := Values(rows[..n], c);
      assert forall i :: 0 <= i < n ==> rows[..n][i] == rows[i];
      match Get(rows[n], c)
      case Num(x) => init + [x]
      case _ => init
  }

  /** One statistic of a span's numbers. The standard deviation is the
      parameter `std`: pandas gives NaN for fewer than two values. */
  function StatCell(s: Stat, vs: seq<real>, std: seq<real> -> real): Cell
  {
    match s
    case MedianOf => if vs == [] then Blank else Num(Median(vs))
    case MeanOf => if vs == [] then Blank else Num(Mean(vs))
    case MinOf => if vs == [] then Blank else Num(Min(vs))
    case MaxOf => if vs == [] then Blank else Num(Max(vs))
    case StdOf => if |vs| >= 2 then Num(std(vs)) else Blank
    case CountOf => Num(|vs| as real)
  }

  /** The flattened statistic cells of one column; `cell` gives the cell of
      a column and statistic. */
  function ColumnStats(cell: (string, Stat) -> Cell, c: string, stats: seq<Stat>): map<string, Cell>
  {
    if stats == [] then map[]
    else
      var s := stats[|stats| - 1];
      ColumnStats(cell, c, stats[..|stats| - 1])[FlatName(c, StatName(s)) := cell(c, s)]
  }

  /** The flattened statistic cells of all aggregated columns. */
  function StatsRow(cell: (string, Stat) -> Cell, cols: seq<string>, stats: seq<Stat>): map<string, Cell>
  {
    if cols == [] then map[]
    else StatsRow(cell, cols[..|cols| - 1], stats) + ColumnStats(cell, cols[|cols| - 1], stats)
  }

  /** The statistics of a span's rows. */
  function SpanCell(rows: seq<Row>, std: seq<real> -> real): (string, Stat) -> Cell
  {
    (c: string, s: Stat) => StatCell(s, Values(rows, c), std)
  }

  lemma {:induction false} ColumnStatsKeys(cell: (string, Stat) -> Cell, c: string, stats: seq<Stat>,
                                          key: string)
    ensures key in ColumnStats(cell, c, stats) <==> exists s :: s in stats && key == FlatName(c, StatName(s))
  {
    if stats != [] {
      var n := |stats| - 1;
      ColumnStatsKeys(cell, c, stats[..n], key);
      assert forall s :: s in stats <==> s in stats[..n] || s == stats[n];
    }
  }

  lemma {:induction false} ColumnStatsAt(cell: (string, Stat) -> Cell, c: string, stats: seq<Stat>,
                                         s: Stat)
    requires s in stats
    ensures FlatName(c, StatName(s)) in ColumnStats(cell, c, stats)
    ensures ColumnStats(cell, c, stats)[FlatName(c, StatName(s))] == cell(c, s)
  {
    var n := |stats| - 1;
    var last := stats[n];
    if s != last {
      assert s in stats[..n];
      ColumnStatsAt(cell, c, stats[..n], s);
      if FlatName(c, StatName(s)) == FlatName(c, StatName(last)) {
        StatColumnInjective(c, s, c, last);
      }
    }
  }

  /** Every name '<col>_<stat>' is in the aggregated row and holds that
      column's statistic. */
  lemma {:induction false} StatsRowAt(cell: (string, Stat) -> Cell, cols: seq<string>, stats: seq<Stat>,
                                      c: string, s: Stat)
    requires c in cols && s in stats
    ensures FlatName(c, StatName(s)) in StatsRow(cell, cols, stats)
    ensures StatsRow(cell, cols, stats)[FlatName(c, StatName(s))] == cell(c, s)
  {
    var n := |cols| - 1;
    var key := FlatName(c, StatName(s));
    var earlier := StatsRow(cell, cols[..n], stats);
    var last := ColumnStats(cell, cols[n], stats);
    assert StatsRow(cell, cols, stats) == earlier + last;
    if c == cols[n] {
      ColumnStatsAt(cell, c, stats, s);
    } else {
      assert c in cols[..n];
      StatsRowAt(cell, cols[..n], stats, c, s);
      ColumnStatsKeys(cell, cols[n], stats, key);
      if key in last {
        var s' :| s' in stats && key == FlatName(cols[n], StatName(s'));
        StatColumnInjective(c, s, cols[n], s');
        assert false;
      }
      assert (earlier + last)[key] == earlier[key];
    }
  }

  predicate IsStatColumn(key: string, cols: seq<string>, stats: seq<Stat>)
  {
    exists c, s :: c in cols && s in stats && key == FlatName(c, StatName(s))
  }

  lemma {:induction false} StatsRowKeysSound(cell: (string, Stat) -> Cell, cols: seq<string>, stats: seq<Stat>,
                                             key: string)
    requires key in StatsRow(cell, cols, stats)
    ensures IsStatColumn(key, cols, stats)
  {
    var n := |cols| - 1;
    var earlier := StatsRow(cell, cols[..n], stats);
    var last := ColumnStats(cell, cols[n], stats);
    assert StatsRow(cell, cols, stats) == earlier + last;
    if key in earlier {
      StatsRowKeysSound(cell, cols[..n], stats, key);
      var c, s :| c in cols[..n] && s in stats && key == FlatName(c, StatName(s));
      assert c in cols;
    } else {
      ColumnStatsKeys(cell, cols[n], stats, key);
      var s :| s in stats && key == FlatName(cols[n], StatName(s));
      assert cols[n] in cols;
    }
  }

  /** The aggregated row holds exactly the names '<col>_<stat>'. */
  lemma StatsRowKeys(cell: (string, Stat) -> Cell, cols: seq<string>, stats: seq<Stat>, key: string)
    ensures key in StatsRow(cell, cols, stats) <==> IsStatColumn(key, cols, stats)
  {
    if key in StatsRow(cell, cols, stats) {
      StatsRowKeysSound(cell, cols, stats, key);
    }
    if IsStatColumn(key, cols, stats) {
      var c, s :| c in cols && s in stats && key == FlatName(c, StatName(s));
      StatsRowAt(cell, cols, stats, c, s);
    }
  }

  /** The flattened column names, column by column and statistic by statistic. */
  function StatColumns(cols: seq<string>, stats: seq<Stat>): (names: seq<string>)
    ensures |names| == |cols| * |stats|
  {
    if cols == [] then []
    else
      StatColumns(cols[..|cols| - 1], stats) + seq(|stats|, j requires 0 <= j < |stats| => FlatName(cols[|cols| - 1], StatName(stats[j])))
  }

  /** The aggregate table with the span as its first column: one row per
      span among the rows whose span cell is not missing. */
  function GroupAgg(f: Frame, spanKey: string, cols: seq<string>, stats: seq<Stat>,
                    std: seq<real> -> real): (r: Frame)
    ensures r.columns == [spanKey] + StatColumns(cols, stats)
    ensures |r.rows| == |GroupKeys(f.rows, [spanKey])|
  {
    var keys := GroupKeys(f.rows, [spanKey]);
    Frame([spanKey] + StatColumns(cols, stats),
          seq(|keys|, i requires 0 <= i < |keys| =>
                StatsRow(SpanCell(GroupRows(f.rows, [spanKey], keys[i]), std), cols, stats)[spanKey := keys[i][0]]))
  }

  /** Each output row belongs to one distinct span present in the input,
      carries that span, and holds every requested statistic of every
      requested column over the span's rows. */
  lemma GroupAggAt(f: Frame, spanKey: string, cols: seq<string>, stats: seq<Stat>, std: seq<real> -> real,
                   i: nat, c: string, s: Stat)
    requires i < |GroupKeys(f.rows, [spanKey])|
    requires c in cols && s in stats && FlatName(c, StatName(s)) != spanKey
    ensures var keys := GroupKeys(f.rows, [spanKey]);
            var row := GroupAgg(f, spanKey, cols, stats, std).rows[i];
            && row[spanKey] == keys[i][0] && Known(keys[i][0])
            && (exists j :: 0 <= j < |f.rows| && Get(f.rows[j], spanKey) == keys[i][0])
            && FlatName(c, StatName(s)) in row
            && row[FlatName(c, StatName(s))]
               == StatCell(s, Values(GroupRows(f.rows, [spanKey], keys[i]), c), std)
  {
    var keys := GroupKeys(f.rows, [spanKey]);
    assert keys[i] in keys;
    var j :| 0 <= j < |f.rows| && KeyOf(f.rows[j], [spanKey]) == keys[i];
    assert Get(f.rows[j], spanKey) == keys[i][0];
    StatsRowAt(SpanCell(GroupRows(f.rows, [spanKey], keys[i]), std), cols, stats, c, s);
  }

  /** Where a span has numbers in a column, its minimum, mean, median and
      maximum are ordered min <= mean, median <= max. */
  lemma StatsOrdered(vs: seq<real>, std: seq<real> -> real)
    requires vs != []
    ensures StatCell(MinOf, vs, std).x <= StatCell(MeanOf, vs, std).x <= StatCell(MaxOf, vs, std).x
    ensures StatCell(MinOf, vs, std).x <= StatCell(MedianOf, vs, std).x <= StatCell(MaxOf, vs, std).x
  {
    MeanBetween(vs);
    MedianBetween(vs);
  }
}
