/** Cleaning: numeric casting of columns, and per-group resampling of a
    time series onto a regular grid with bounded carry fill and bounded
    linear interpolation, plus the centred moving average.

    A column of a group on its grid is a sequence of slots, `None` where
    the cell is missing. On a regular grid, interpolation in time is
    interpolation in slot index. */
module Clean {
  import opened Telemetry
  import opened Stats

  // ---- cast_numeric ----

  /** The columns cast when none are named: all but the time and identity columns. */
  function DefaultCastColumns(columns: seq<string>): (r: seq<string>)
    ensures forall c :: c in r <==> c in columns && c !in ["Time", "timestamp", "NE", "TP"]
  {
    if columns == [] then []
    else
      var n := |columns| - 1;
      assert columns == columns[..n] + [columns[n]];
      DefaultCastColumns(columns[..n]) + if columns[n] in ["Time", "timestamp", "NE", "TP"] then [] else [columns[n]]
  }

  function CastTargets(columns: seq<string>, cols: Option<seq<string>>): seq<string>
  {
    match cols
    case None => DefaultCastColumns(columns)
    case Some(cs) => cs
  }

  /** cast_numeric: each named column the frame has is coerced in turn. */
  method CastNumeric(f: Frame, cols: Option<seq<string>>, parse: string -> Option<real>) returns (r: Frame)
    ensures r == CoerceColumns(f, CastTargets(f.columns, cols), parse)
  {
    var targets := CastTargets(f.columns, cols);
    r := f;
    for i := 0 to |targets|
      invariant r == CoerceColumns(f, targets[..i], parse)
    {
      assert targets[..i + 1][..i] == targets[..i];
      if targets[i] in r.columns {
        r := CoerceColumn(r, targets[i], parse);
      }
    }
    assert targets[..|targets|] == targets;
  }

  /** By default every column but Time, timestamp, NE and TP is coerced: a
      value that does not parse becomes missing, never zero, and the four
      excluded columns and the columns not named are left as they were. */
  lemma CastNumericAt(f: Frame, cols: Option<seq<string>>, parse: string -> Option<real>, i: nat, c: string)
    requires i < |f.rows|
    ensures var cell := Get(CoerceColumns(f, CastTargets(f.columns, cols), parse).rows[i], c);
            var before := Get(f.rows[i], c);
            && (c in CastTargets(f.columns, cols) && c in f.columns ==>
                  (Coerce(parse, before).None? ==> cell == Blank)
                  && (Coerce(parse, before).Some? ==> cell == Num(Coerce(parse, before).value)))
            && (c !in CastTargets(f.columns, cols) || c !in f.columns ==> cell == before)
            && (cols.None? && c in f.columns ==> (c in CastTargets(f.columns, cols) <==> c !in ["Time", "timestamp", "NE", "TP"]))
  {
    CoerceColumnsAt(f, CastTargets(f.columns, cols), parse, i, c);
  }

  // ---- slot series: nearest known neighbours ----

  /** The last known slot strictly before k. */
  function LastKnownBefore<T>(s: seq<Option<T>>, k: nat): (p: Option<nat>)
    requires k <= |s|
    ensures p.Some? ==> p.value < k && s[p.value].Some? && forall j :: p.value < j < k ==> s[j].None?
    ensures p.None? ==> forall j :: 0 <= j < k ==> s[j].None?
  {
    if k == 0 then None
    else if s[k - 1].Some? then Some(k - 1)
    else LastKnownBefore(s, k - 1)
  }

  /** The first known slot strictly after k. */
  function NextKnownAfter<T>(s: seq<Option<T>>, k: nat): (q: Option<nat>)
    requires k < |s|
    ensures q.Some? ==> k < q.value < |s| && s[q.value].Some? && forall j :: k < j < q.value ==> s[j].None?
    ensures q.None? ==> forall j :: k < j < |s| ==> s[j].None?
    decreases |s| - k
  {
    if k + 1 == |s| then None
    else if s[k + 1].Some? then Some(k + 1)
    else NextKnownAfter(s, k + 1)
  }

  // ---- carry fill: ffill(limit=2) then bfill(limit=2) ----

  /** ffill(limit): a missing slot takes the last known value before it
      when that value is at most `limit` slots back. */
  function FFill<T>(s: seq<Option<T>>, limit: nat): (r: seq<Option<T>>)
    ensures |r| == |s|
  {
    seq(|s|, k requires 0 <= k < |s| =>
      if s[k].Some? then s[k]
      else match LastKnownBefore(s, k)
           case Some(p) => if k - p <= limit then s[p] else None
           case None => None)
  }

  /** bfill(limit): a missing slot takes the first known value after it
      when that value is at most `limit` slots ahead. */
  function BFill<T>(s: seq<Option<T>>, limit: nat): (r: seq<Option<T>>)
    ensures |r| == |s|
  {
    seq(|s|, k requires 0 <= k < |s| =>
      if s[k].Some? then s[k]
      else match NextKnownAfter(s, k)
           case Some(q) => if q - k <= limit then s[q] else None
           case None => None)
  }

  /** The carry step of resample_group. */
  function Carry<T>(s: seq<Option<T>>): (r: seq<Option<T>>)
    ensures |r| == |s|
  {
    BFill(FFill(s, 2), 2)
  }

  /** Carrying never changes a known slot. A missing slot takes the nearest
      known value before it when that is at most 2 slots back, otherwise the
      nearest known value after it when that is at most 2 slots ahead, and
      otherwise stays missing; this holds at the ends of the series too. */
  lemma CarryAt<T>(s: seq<Option<T>>, k: nat)
    requires k < |s|
    ensures s[k].Some? ==> Carry(s)[k] == s[k]
    ensures s[k].None? ==>
              Carry(s)[k] == (var p := LastKnownBefore(s, k);
                              var q := NextKnownAfter(s, k);
                              if p.Some? && k - p.value <= 2 then s[p.value]
                              else if q.Some? && q.value - k <= 2 then s[q.value]
                              else None)
    ensures s[k].None? && Carry(s)[k].Some? ==>
              exists j :: 0 <= j < |s| && s[j] == Carry(s)[k] && -2 <= j - k <= 2
  {
    var t := FFill(s, 2);
    if s[k].None? && t[k].None? {
      var p := LastKnownBefore(s, k);
      var q := NextKnownAfter(s, k);
      match q
      case Some(qv) =>
        forall j | k < j < qv ensures t[j].None? {
          AfterUnfilled(s, k, j);
        }
        NextKnownUnique(t, k, qv);
      case None =>
        forall j | k < j < |s| ensures t[j].None? {
          AfterUnfilled(s, k, j);
        }
    }
  }

  /** Past a slot that forward filling leaves missing, the missing slots up
      to the next known one stay missing too. */
  lemma AfterUnfilled<T>(s: seq<Option<T>>, k: nat, j: nat)
    requires k < j < |s| && s[k].None? && FFill(s, 2)[k].None?
    requires forall i :: k < i <= j ==> s[i].None?
    ensures FFill(s, 2)[j].None?
  {
    match LastKnownBefore(s, k)
    case Some(p) =>
      LastKnownUnique(s, j, p);
    case None =>
  }

  /** The last known slot before k is the one a scan back from k finds. */
  lemma LastKnownUnique<T>(s: seq<Option<T>>, k: nat, p: nat)
    requires p < k <= |s| && s[p].Some? && forall j :: p < j < k ==> s[j].None?
    ensures LastKnownBefore(s, k) == Some(p)
  {
  }

  lemma NextKnownUnique<T>(s: seq<Option<T>>, k: nat, q: nat)
    requires k < q < |s| && s[q].Some? && forall j :: k < j < q ==> s[j].None?
    ensures NextKnownAfter(s, k) == Some(q)
  {
  }

  /** A gap of at most 4 missing slots between two known slots is filled
      entirely by carrying: the first two from before, the rest from after. */
  lemma CarryFillsShortGap<T>(s: seq<Option<T>>, p: nat, q: nat, k: nat)
    requires p < k < q < |s| && q - p <= 5
    requires s[p].Some? && s[q].Some? && forall j :: p < j < q ==> s[j].None?
    ensures Carry(s)[k] == if k - p <= 2 then s[p] else s[q]
  {
    var t := FFill(s, 2);
    LastKnownUnique(s, k, p);
    if k - p > 2 {
      forall j | k < j < q ensures t[j].None? {
        LastKnownUnique(s, j, p);
      }
      NextKnownUnique(t, k, q);
    }
  }

  // ---- interpolate(method="time", limit=4) ----

  /** The point i/n of the way from a to b. */
  function Lerp(a: real, b: real, i: nat, n: nat): real
    requires 0 < i < n
  {
    a + (b - a) * ((i as real) / (n as real))
  }

  /** An interpolated value lies between its two ends. */
  lemma LerpBetween(a: real, b: real, i: nat, n: nat)
    requires 0 < i < n
    ensures a <= b ==> a <= Lerp(a, b, i, n) <= b
    ensures b <= a ==> b <= Lerp(a, b, i, n) <= a
  {
    var t := (i as real) / (n as real);
    assert 0.0 < t < 1.0;
    if a <= b {
      assert 0.0 <= (b - a) * t <= (b - a) * 1.0;
    } else {
      assert (a - b) * t <= (a - b) * 1.0;
      assert (b - a) * t == -((a - b) * t);
    }
  }

  /** interpolate(limit): a missing slot at most `limit` slots after the
      last known slot takes the value on the line to the next known slot,
      or the last known value when no known slot follows; leading missing
      slots stay missing. */
  function Interp(s: seq<Option<real>>, limit: nat): (r: seq<Option<real>>)
    ensures |r| == |s|
  {
    seq(|s|, k requires 0 <= k < |s| =>
      if s[k].Some? then s[k]
      else match LastKnownBefore(s, k)
           case None => None
           case Some(p) =>
             if k - p > limit then None
             else match NextKnownAfter(s, k)
                  case Some(q) => Some(Lerp(s[p].value, s[q].value, k - p, q - p))
                  case None => s[p])
  }

  /** Interpolation never changes a known slot, fills a missing slot only
      within `limit` slots of a known slot before it, and leaves slots with
      no known slot before them missing. */
  lemma InterpAt(s: seq<Option<real>>, limit: nat, k: nat)
    requires k < |s|
    ensures s[k].Some? ==> Interp(s, limit)[k] == s[k]
    ensures s[k].None? && Interp(s, limit)[k].Some? ==>
              exists p :: 0 <= p < k && k - p <= limit && s[p].Some? && forall j :: p < j < k ==> s[j].None?
    ensures (forall j :: 0 <= j <= k ==> s[j].None?) ==> Interp(s, limit)[k].None?
  {
    if s[k].None? && Interp(s, limit)[k].Some? {
      var p := LastKnownBefore(s, k).value;
      assert k - p <= limit;
    }
  }

  /** Inside a gap between known slots p and q, a slot within `limit` of p
      gets the value on the line between them, which lies between the two
      known values; a slot farther from p stays missing. */
  lemma InterpInGap(s: seq<Option<real>>, limit: nat, p: nat, k: nat, q: nat)
    requires p < k < q < |s| && s[p].Some? && s[q].Some? && forall j :: p < j < q ==> s[j].None?
    ensures k - p <= limit ==> Interp(s, limit)[k] == Some(Lerp(s[p].value, s[q].value, k - p, q - p))
    ensures k - p > limit ==> Interp(s, limit)[k] == None
    ensures Interp(s, limit)[k].Some? ==>
              (s[p].value <= s[q].value ==> s[p].value <= Interp(s, limit)[k].value <= s[q].value)
              && (s[q].value <= s[p].value ==> s[q].value <= Interp(s, limit)[k].value <= s[p].value)
  {
    LastKnownUnique(s, k, p);
    NextKnownUnique(s, k, q);
    LerpBetween(s[p].value, s[q].value, k - p, q - p);
  }

  /** The fill of resample_group: carry, then interpolate at most 4 slots. */
  function Fill(s: seq<Option<real>>): (r: seq<Option<real>>)
    ensures |r| == |s|
  {
    Interp(Carry(s), 4)
  }

  /** Filling keeps every known slot, and a gap of at most 4 slots between
      known slots is filled by carrying alone: interpolation finds nothing
      left to do there. */
  lemma FillAt(s: seq<Option<real>>, k: nat)
    requires k < |s|
    ensures s[k].Some? ==> Fill(s)[k] == s[k]
  {
    CarryAt(s, k);
    InterpAt(Carry(s), 4, k);
  }

  lemma FillShortGap(s: seq<Option<real>>, p: nat, q: nat, k: nat)
    requires p < k < q < |s| && q - p <= 5
    requires s[p].Some? && s[q].Some? && forall j :: p < j < q ==> s[j].None?
    ensures Fill(s)[k] == if k - p <= 2 then s[p] else s[q]
  {
    CarryFillsShortGap(s, p, q, k);
    InterpAt(Carry(s), 4, k);
  }

  // ---- moving_average_smooth ----

  /** The known values of a window, in order (the NaNs rolling skips). */
  function Knowns(s: seq<Option<real>>): (r: seq<real>)
    ensures forall x :: x in r <==> Some(x) in s
  {
    if s == [] then []
    else
      var n := |s| - 1;
      assert s == s[..n] + [s[n]];
      Knowns(s[..n]) + if s[n].Some? then [s[n].value] else []
  }

  /** The centred window of 3 around slot k, cut at both ends. */
  function Window(s: seq<Option<real>>, k: nat): seq<Option<real>>
    requires k < |s|
  {
    s[if k == 0 then 0 else k - 1 .. if k + 2 <= |s| then k + 2 else |s|]
  }

  /** rolling(window=3, center=True, min_periods=1).mean(). */
  function Smooth(s: seq<Option<real>>): (r: seq<Option<real>>)
    ensures |r| == |s|
  {
    seq(|s|, k requires 0 <= k < |s| =>
      var w := Knowns(Window(s, k));
      if w == [] then None else Some(Mean(w)))
  }

  /** Each smoothed slot is missing exactly when its whole window is, and
      otherwise lies between the smallest and largest known values of the
      window, the slots k-1, k and k+1 that exist. */
  lemma SmoothAt(s: seq<Option<real>>, k: nat)
    requires k < |s|
    ensures Smooth(s)[k].None? <==> forall j :: k - 1 <= j <= k + 1 && 0 <= j < |s| ==> s[j].None?
    ensures Smooth(s)[k].Some? ==>
              (exists j :: k - 1 <= j <= k + 1 && 0 <= j < |s| && s[j].Some? && s[j].value <= Smooth(s)[k].value)
              && (exists j :: k - 1 <= j <= k + 1 && 0 <= j < |s| && s[j].Some? && Smooth(s)[k].value <= s[j].value)
  {
    var lo := if k == 0 then 0 else k - 1;
    var w := Window(s, k);
    var vs := Knowns(w);
    forall j | k - 1 <= j <= k + 1 && 0 <= j < |s| ensures s[j] == w[j - lo] {
    }
    if vs != [] {
      MeanBetween(vs);
      assert Min(vs) in vs && Max(vs) in vs;
      var i :| 0 <= i < |w| && w[i] == Some(Min(vs));
      var i' :| 0 <= i' < |w| && w[i'] == Some(Max(vs));
      assert s[lo + i] == w[i] && s[lo + i'] == w[i'];
    } else {
      forall j | k - 1 <= j <= k + 1 && 0 <= j < |s| ensures s[j].None? {
        assert w[j - lo] == s[j];
      }
    }
  }

  // ---- resample_group ----

  const TimeCol: string := "timestamp"

  /** pd.date_range(min, max, freq): from lo in steps of the cadence, up to hi. */
  function Grid(lo: int, hi: int, cadence: nat): (g: seq<int>)
    requires lo <= hi && cadence > 0
    ensures |g| == (hi - lo) / cadence + 1
  {
    seq((hi - lo) / cadence + 1, k requires 0 <= k <= (hi - lo) / cadence => lo + k * cadence)
  }

  /** Grid point k is lo + k * cadence, inside [lo, hi]; the grid starts at
      lo and its last point is less than one cadence below hi. */
  lemma GridAt(lo: int, hi: int, cadence: nat, k: nat)
    requires lo <= hi && cadence > 0 && k < |Grid(lo, hi, cadence)|
    ensures Grid(lo, hi, cadence)[k] == lo + k * cadence
    ensures lo <= Grid(lo, hi, cadence)[k] <= hi
    ensures k == |Grid(lo, hi, cadence)| - 1 ==> hi - cadence < Grid(lo, hi, cadence)[k]
  {
    DivisionBounds(hi - lo, cadence, k);
  }

  lemma DivisionBounds(x: nat, c: nat, k: nat)
    requires c > 0 && k <= x / c
    ensures 0 <= k * c <= x && x - c < (x / c) * c
  {
    var d := x / c;
    assert d * c + x % c == x;
    assert (d - k) * c >= 0;
  }

  /** The instants of a group's timestamp cells; any other cell counts as missing. */
  function Stamps(g: seq<Row>): (st: seq<Option<int>>)
    ensures |st| == |g|
  {
    seq(|g|, i requires 0 <= i < |g| => AsTime(Get(g[i], TimeCol)))
  }

  /** The row stamped t, if any. */
  function RowAt(g: seq<Row>, t: int): (r: Option<Row>)
    ensures r.Some? ==> exists j :: 0 <= j < |g| && g[j] == r.value && AsTime(Get(g[j], TimeCol)) == Some(t)
    ensures r.None? ==> forall j :: 0 <= j < |g| ==> AsTime(Get(g[j], TimeCol)) != Some(t)
  {
    if g == [] then None
    else if AsTime(Get(g[0], TimeCol)) == Some(t) then Some(g[0])
    else
      var r := RowAt(g[1..], t);
      assert forall j :: 0 < j < |g| ==> g[j] == g[1..][j - 1];
      r
  }

  lemma RowAtUnique(g: seq<Row>, t: int, j: nat)
    requires Distinct(Stamps(g)) && j < |g| && AsTime(Get(g[j], TimeCol)) == Some(t)
    ensures RowAt(g, t) == Some(g[j])
  {
    var r := RowAt(g, t);
    var i :| 0 <= i < |g| && g[i] == r.value && AsTime(Get(g[i], TimeCol)) == Some(t);
    assert Stamps(g)[i] == Stamps(g)[j];
  }

  /** set_index("timestamp") then reindex(grid): slot k holds the row
      stamped exactly at grid point k, without its timestamp, or nothing. */
  function Reindexed(g: seq<Row>, grid: seq<int>): (r: seq<Row>)
    ensures |r| == |grid|
  {
    seq(|grid|, k requires 0 <= k < |grid| =>
      match RowAt(g, grid[k]) case Some(row) => row - {TimeCol} case None => map[])
  }

  /** The slots of column c. */
  function ColumnOf(rows: seq<Row>, c: string): (s: seq<Option<Cell>>)
    ensures |s| == |rows|
  {
    seq(|rows|, k requires 0 <= k < |rows| => if Known(Get(rows[k], c)) then Some(Get(rows[k], c)) else None)
  }

  function CellOf(o: Option<Cell>): Cell { if o.Some? then o.value else Blank }

  /** g.ffill(limit=2).bfill(limit=2) over the columns `cols`. */
  function Carried(rows: seq<Row>, cols: seq<string>): (r: seq<Row>)
    ensures |r| == |rows|
  {
    seq(|rows|, k requires 0 <= k < |rows| =>
      map c | c in cols && Carry(ColumnOf(rows, c))[k].Some? :: Carry(ColumnOf(rows, c))[k].value)
  }

  /** A column interpolates when all its known cells are numbers. */
  predicate IsNumeric(s: seq<Option<Cell>>)
  {
    forall k :: 0 <= k < |s| && s[k].Some? ==> s[k].value.Num?
  }

  function Nums(s: seq<Option<Cell>>): (r: seq<Option<real>>)
    ensures |r| == |s|
  {
    seq(|s|, k requires 0 <= k < |s| => if s[k].Some? && s[k].value.Num? then Some(s[k].value.x) else None)
  }

  function InterpCell(rows: seq<Row>, c: string, k: nat): Cell
    requires k < |rows|
  {
    var s := ColumnOf(rows, c);
    if IsNumeric(s) then FromOption(Interp(Nums(s), 4)[k]) else CellOf(s[k])
  }

  /** g.interpolate(method="time", limit=4) over the columns `cols`. */
  function Interpolated(rows: seq<Row>, cols: seq<string>): (r: seq<Row>)
    ensures |r| == |rows|
  {
    seq(|rows|, k requires 0 <= k < |rows| =>
      map c | c in cols && Known(InterpCell(rows, c, k)) :: InterpCell(rows, c, k))
  }

  /** g[k] = v for each group key column, in order. */
  function Attach(row: Row, keyCols: seq<string>, key: seq<Cell>): Row
    requires |key| == |keyCols|
  {
    if keyCols == [] then row
    else
      var n := |keyCols| - 1;
      Attach(row, keyCols[..n], key[..n])[keyCols[n] := key[n]]
  }

  /** The index back as the timestamp column, and the group keys re-attached. */
  function WithKeys(rows: seq<Row>, grid: seq<int>, keyCols: seq<string>, key: seq<Cell>): (r: seq<Row>)
    requires |rows| == |grid| && |key| == |keyCols|
    ensures |r| == |rows|
  {
    seq(|rows|, k requires 0 <= k < |rows| => Attach(rows[k][TimeCol := Stamp(grid[k])], keyCols, key))
  }

  /** The columns other than the timestamp. */
  function Without(columns: seq<string>, c: string): (r: seq<string>)
    ensures forall x :: x in r <==> x in columns && x != c
  {
    if columns == [] then []
    else
      var n := |columns| - 1;
      assert columns == columns[..n] + [columns[n]];
      Without(columns[..n], c) + if columns[n] == c then [] else [columns[n]]
  }

  /** One group resampled: its grid spans its earliest to its latest valid
      timestamp; a group with no valid timestamp or with a repeated
      timestamp label fails. */
  function ResampleOne(g: seq<Row>, cols: seq<string>, keyCols: seq<string>, key: seq<Cell>,
                       cadence: nat): Result<seq<Row>>
    requires cadence > 0 && |key| == |keyCols|
  {
    var inst := Instants(Stamps(g));
    if inst == [] then Err(NoValidTimestamp)
    else if !Distinct(Stamps(g)) then Err(DuplicateTimestamps)
    else
      var grid := Grid(MinInt(inst), MaxInt(inst), cadence);
      Ok(WithKeys(Interpolated(Carried(Reindexed(g, grid), cols), cols), grid, keyCols, key))
  }

  /** The groups one after the other; the first failing group fails the whole. */
  function ResampleAll(rows: seq<Row>, groupCols: seq<string>, keys: seq<seq<Cell>>, cols: seq<string>,
                       cadence: nat): Result<seq<Row>>
    requires cadence > 0 && forall i :: 0 <= i < |keys| ==> |keys[i]| == |groupCols|
  {
    if keys == [] then Ok([])
    else
      var n := |keys| - 1;
      match ResampleAll(rows, groupCols, keys[..n], cols, cadence)
      case Err(e) => Err(e)
      case Ok(prev) =>
        match ResampleOne(GroupRows(rows, groupCols, keys[n]), cols, groupCols, keys[n], cadence)
        case Err(e) => Err(e)
        case Ok(more) => Ok(prev + more)
  }

  /** resample_group: the timestamp column is required, groupby needs at
      least one key column and every key column; no group gives the empty
      frame; otherwise the groups' rows follow each other under the columns
      timestamp first, then the others in their order. */
  function Resample(f: Frame, groupCols: seq<string>, cadence: nat): Result<Frame>
    requires cadence > 0
  {
    if TimeCol !in f.columns then Err(MissingColumn(TimeCol))
    else if groupCols == [] then Err(NoGroupKeys)
    else if FirstMissing(groupCols, f.columns).Some? then Err(MissingColumn(FirstMissing(groupCols, f.columns).value))
    else
      var keys := GroupKeys(f.rows, groupCols);
      if keys == [] then Ok(Frame([], []))
      else
        match ResampleAll(f.rows, groupCols, keys, Without(f.columns, TimeCol), cadence)
        case Err(e) => Err(e)
        case Ok(rows) => Ok(Frame([TimeCol] + Without(f.columns, TimeCol), rows))
  }

  /** The body of the loop over groups: g is reassigned step by step. */
  method ResampleGroupOne(g: seq<Row>, cols: seq<string>, keyCols: seq<string>, key: seq<Cell>,
                          cadence: nat) returns (r: Result<seq<Row>>)
    requires cadence > 0 && |key| == |keyCols|
    ensures r == ResampleOne(g, cols, keyCols, key, cadence)
  {
    var inst := Instants(Stamps(g));
    if inst == [] {
      return Err(NoValidTimestamp);
    }
    var full := Grid(MinInt(inst), MaxInt(inst), cadence);
    if !Distinct(Stamps(g)) {
      return Err(DuplicateTimestamps);
    }
    var rows := Reindexed(g, full);
    rows := Carried(rows, cols);
    rows := Interpolated(rows, cols);
    rows := WithKeys(rows, full, keyCols, key);
    return Ok(rows);
  }

  /** resample_group with its loop over the groups. */
  method ResampleGroup(f: Frame, groupCols: seq<string>, cadence: nat) returns (r: Result<Frame>)
    requires cadence > 0
    ensures r == Resample(f, groupCols, cadence)
  {
    if TimeCol !in f.columns {
      return Err(MissingColumn(TimeCol));
    }
    if groupCols == [] {
      return Err(NoGroupKeys);
    }
    var missing := FirstMissing(groupCols, f.columns);
    if missing.Some? {
      return Err(MissingColumn(missing.value));
    }
    var keys := GroupKeys(f.rows, groupCols);
    var cols := Without(f.columns, TimeCol);
    var groups: seq<Row> := [];
    for i := 0 to |keys|
      invariant ResampleAll(f.rows, groupCols, keys[..i], cols, cadence) == Ok(groups)
    {
      assert keys[..i + 1][..i] == keys[..i];
      var one := ResampleGroupOne(GroupRows(f.rows, groupCols, keys[i]), cols, groupCols, keys[i], cadence);
      ResampleAllStep(f.rows, groupCols, keys, cols, cadence, i, groups);
      if one.Err? {
        FailureSticks(f.rows, groupCols, keys, cols, cadence, i + 1);
        return Err(one.failure);
      }
      groups := groups + one.value;
    }
    assert keys[..|keys|] == keys;
    if keys == [] {
      return Ok(Frame([], []));
    }
    r := Ok(Frame([TimeCol] + Without(f.columns, TimeCol), groups));
  }

  lemma ResampleAllStep(rows: seq<Row>, groupCols: seq<string>, keys: seq<seq<Cell>>,
                        cols: seq<string>, cadence: nat, i: nat, prev: seq<Row>)
    requires cadence > 0 && forall j :: 0 <= j < |keys| ==> |keys[j]| == |groupCols|
    requires i < |keys| && ResampleAll(rows, groupCols, keys[..i], cols, cadence) == Ok(prev)
    ensures ResampleAll(rows, groupCols, keys[..i + 1], cols, cadence)
            == match ResampleOne(GroupRows(rows, groupCols, keys[i]), cols, groupCols, keys[i], cadence)
               case Err(e) => Err(e)
               case Ok(more) => Ok(prev + more)
  {
    assert keys[..i + 1][..i] == keys[..i];
  }

  /** Once a group fails, resampling more groups fails with the same error. */
  lemma {:induction false} FailureSticks(rows: seq<Row>, groupCols: seq<string>, keys: seq<seq<Cell>>,
                                         cols: seq<string>, cadence: nat, i: nat)
    requires cadence > 0 && forall j :: 0 <= j < |keys| ==> |keys[j]| == |groupCols|
    requires i <= |keys| && ResampleAll(rows, groupCols, keys[..i], cols, cadence).Err?
    ensures ResampleAll(rows, groupCols, keys, cols, cadence) == ResampleAll(rows, groupCols, keys[..i], cols, cadence)
    decreases |keys| - i
  {
    if i < |keys| {
      assert keys[..i + 1][..i] == keys[..i];
      FailureSticks(rows, groupCols, keys, cols, cadence, i + 1);
    } else {
      assert keys[..i] == keys;
    }
  }

  // ---- properties of resample_group ----

  /** The keys of a group name the same cell for a key column named twice,
      as the keys of KeyOf always do. */
  predicate KeyConsistent(keyCols: seq<string>, key: seq<Cell>)
    requires |key| == |keyCols|
  {
    forall j, j' :: 0 <= j < |keyCols| && 0 <= j' < |keyCols| && keyCols[j] == keyCols[j'] ==> key[j] == key[j']
  }

  /** Attaching the keys sets every key column to its key cell and leaves
      every other column as it was. */
  lemma {:induction false} AttachAt(row: Row, keyCols: seq<string>, key: seq<Cell>, c: string)
    requires |key| == |keyCols| && KeyConsistent(keyCols, key)
    ensures forall j :: 0 <= j < |keyCols| && keyCols[j] == c ==> Get(Attach(row, keyCols, key), c) == key[j]
    ensures c !in keyCols ==> Get(Attach(row, keyCols, key), c) == Get(row, c)
  {
    if keyCols != [] {
      var n := |keyCols| - 1;
      AttachAt(row, keyCols[..n], key[..n], c);
      forall j | 0 <= j < |keyCols| && keyCols[j] == c ensures Get(Attach(row, keyCols, key), c) == key[j] {
        if c != keyCols[n] {
          assert keyCols[..n][j] == c;
        }
      }
      if c !in keyCols {
        assert c !in keyCols[..n];
      }
    }
  }

  lemma GroupKeyConsistent(rows: seq<Row>, keyCols: seq<string>, key: seq<Cell>)
    requires key in GroupKeys(rows, keyCols)
    ensures |key| == |keyCols| && KeyConsistent(keyCols, key)
  {
    var i :| 0 <= i < |rows| && KeyOf(rows[i], keyCols) == key;
  }

  /** Row k of a keyed grid is stamped with grid point k and carries the
      group's keys. */
  lemma WithKeysAt(rows: seq<Row>, grid: seq<int>, keyCols: seq<string>, key: seq<Cell>, k: nat)
    requires |rows| == |grid| && |key| == |keyCols| && KeyConsistent(keyCols, key) && k < |rows|
    ensures TimeCol !in keyCols ==> Get(WithKeys(rows, grid, keyCols, key)[k], TimeCol) == Stamp(grid[k])
    ensures forall j :: 0 <= j < |keyCols| ==> Get(WithKeys(rows, grid, keyCols, key)[k], keyCols[j]) == key[j]
  {
    var before := rows[k][TimeCol := Stamp(grid[k])];
    assert WithKeys(rows, grid, keyCols, key)[k] == Attach(before, keyCols, key);
    AttachAt(before, keyCols, key, TimeCol);
    forall j | 0 <= j < |keyCols| ensures Get(Attach(before, keyCols, key), keyCols[j]) == key[j] {
      AttachAt(before, keyCols, key, keyCols[j]);
    }
  }

  /** Keying the grid leaves every other column of a row as it was. */
  lemma WithKeysKeeps(rows: seq<Row>, grid: seq<int>, keyCols: seq<string>, key: seq<Cell>, k: nat, c: string)
    requires |rows| == |grid| && |key| == |keyCols| && KeyConsistent(keyCols, key) && k < |rows|
    requires c != TimeCol && c !in keyCols
    ensures Get(WithKeys(rows, grid, keyCols, key)[k], c) == Get(rows[k], c)
  {
    var before := rows[k][TimeCol := Stamp(grid[k])];
    assert WithKeys(rows, grid, keyCols, key)[k] == Attach(before, keyCols, key);
    AttachAt(before, keyCols, key, c);
  }

  /** A resampled group has one row per grid point from its earliest to its
      latest valid timestamp: row k is stamped earliest + k * cadence,
      inside that range, and carries the group's keys. */
  lemma ResampleOneGrid(g: seq<Row>, cols: seq<string>, keyCols: seq<string>, key: seq<Cell>,
                        cadence: nat, k: nat)
    requires cadence > 0 && |key| == |keyCols| && KeyConsistent(keyCols, key)
    requires ResampleOne(g, cols, keyCols, key, cadence).Ok?
    ensures Instants(Stamps(g)) != []
    ensures var rows := ResampleOne(g, cols, keyCols, key, cadence).value;
            var lo := MinInt(Instants(Stamps(g)));
            var hi := MaxInt(Instants(Stamps(g)));
            && |rows| == (hi - lo) / cadence + 1
            && (k < |rows| ==>
                  && lo <= lo + k * cadence <= hi
                  && (TimeCol !in keyCols ==> Get(rows[k], TimeCol) == Stamp(lo + k * cadence))
                  && forall j :: 0 <= j < |keyCols| ==> Get(rows[k], keyCols[j]) == key[j])
  {
    var inst := Instants(Stamps(g));
    var lo := MinInt(inst);
    var hi := MaxInt(inst);
    var grid := Grid(lo, hi, cadence);
    var filled := Interpolated(Carried(Reindexed(g, grid), cols), cols);
    var rows := WithKeys(filled, grid, keyCols, key);
    assert ResampleOne(g, cols, keyCols, key, cadence).value == rows;
    if k < |rows| {
      GridAt(lo, hi, cadence, k);
      var t := grid[k];
      assert t == lo + k * cadence && lo <= t <= hi;
      WithKeysAt(filled, grid, keyCols, key, k);
      assert TimeCol !in keyCols ==> Get(rows[k], TimeCol) == Stamp(t);
    }
  }

  /** Reindexing keeps only rows stamped exactly at a grid point: each slot
      is either empty or the row stamped at that point. */
  lemma ReindexedAt(g: seq<Row>, grid: seq<int>, k: nat)
    requires k < |grid|
    ensures Reindexed(g, grid)[k] == map[]
            || exists j :: 0 <= j < |g| && AsTime(Get(g[j], TimeCol)) == Some(grid[k])
                           && Reindexed(g, grid)[k] == g[j] - {TimeCol}
  {
  }

  lemma CarriedAt(rows: seq<Row>, cols: seq<string>, c: string, k: nat)
    requires k < |rows| && c in cols
    ensures Get(Carried(rows, cols)[k], c) == CellOf(Carry(ColumnOf(rows, c))[k])
  {
  }

  /** A known cell survives interpolation. */
  lemma InterpolatedKeeps(rows: seq<Row>, cols: seq<string>, c: string, k: nat)
    requires k < |rows| && c in cols && Known(Get(rows[k], c))
    ensures Get(Interpolated(rows, cols)[k], c) == Get(rows[k], c)
  {
    var s := ColumnOf(rows, c);
    if IsNumeric(s) {
      assert s[k] == Some(Get(rows[k], c));
      assert Nums(s)[k] == Some(Get(rows[k], c).x);
      InterpAt(Nums(s), 4, k);
    }
  }

  lemma DivisionExact(x: nat, c: nat, y: nat)
    requires c > 0 && x % c == 0 && x <= y
    ensures (x / c) * c == x && x / c <= y / c
  {
    var d := x / c;
    var e := y / c;
    assert d * c + x % c == x;
    assert e * c + y % c == y;
    assert y % c < c;
    if d > e {
      assert (e + 1) * c == e * c + c;
      MulMonotone(e + 1, d, c);
    }
  }

  lemma MulMonotone(a: nat, b: nat, c: nat)
    requires a <= b
    ensures a * c <= b * c
  {
    assert b * c == a * c + (b - a) * c;
  }

  /** A sample stamped at a grid point lands in that point's slot. */
  lemma SampleSlot(g: seq<Row>, j: nat, t: int, lo: int, hi: int, cadence: nat, c: string)
    requires cadence > 0 && Distinct(Stamps(g)) && j < |g| && AsTime(Get(g[j], TimeCol)) == Some(t)
    requires lo <= t <= hi && (t - lo) % cadence == 0 && c != TimeCol
    ensures var k := (t - lo) / cadence;
            0 <= k < |Grid(lo, hi, cadence)| && Get(Reindexed(g, Grid(lo, hi, cadence))[k], c) == Get(g[j], c)
  {
    DivisionExact(t - lo, cadence, hi - lo);
    var k := (t - lo) / cadence;
    GridAt(lo, hi, cadence, k);
    RowAtUnique(g, t, j);
  }

  /** Carrying and interpolating keep a known cell. */
  lemma FilledKeeps(rows: seq<Row>, cols: seq<string>, c: string, k: nat)
    requires k < |rows| && c in cols && Known(Get(rows[k], c))
    ensures Get(Interpolated(Carried(rows, cols), cols)[k], c) == Get(rows[k], c)
  {
    CarriedAt(rows, cols, c, k);
    CarryAt(ColumnOf(rows, c), k);
    InterpolatedKeeps(Carried(rows, cols), cols, c, k);
  }

  /** A known cell of a sample stamped on a grid point is still there
      after the fill steps. */
  lemma SampleKept(g: seq<Row>, j: nat, t: int, lo: int, hi: int, cadence: nat, cols: seq<string>, c: string)
    requires cadence > 0 && Distinct(Stamps(g)) && j < |g| && AsTime(Get(g[j], TimeCol)) == Some(t)
    requires lo <= t <= hi && (t - lo) % cadence == 0 && c != TimeCol && c in cols && Known(Get(g[j], c))
    ensures var k := (t - lo) / cadence;
            var filled := Interpolated(Carried(Reindexed(g, Grid(lo, hi, cadence)), cols), cols);
            0 <= k < |filled| && Get(filled[k], c) == Get(g[j], c)
  {
    SampleSlot(g, j, t, lo, hi, cadence, c);
    FilledKeeps(Reindexed(g, Grid(lo, hi, cadence)), cols, c, (t - lo) / cadence);
  }

  /** A group that resamples has distinct timestamps, and its rows are the
      keyed, filled grid between its earliest and latest timestamp. */
  lemma ResampleOneShape(g: seq<Row>, cols: seq<string>, keyCols: seq<string>, key: seq<Cell>, cadence: nat)
    requires cadence > 0 && |key| == |keyCols|
    requires ResampleOne(g, cols, keyCols, key, cadence).Ok?
    ensures Instants(Stamps(g)) != [] && Distinct(Stamps(g))
    ensures var grid := Grid(MinInt(Instants(Stamps(g))), MaxInt(Instants(Stamps(g))), cadence);
            ResampleOne(g, cols, keyCols, key, cadence).value
            == WithKeys(Interpolated(Carried(Reindexed(g, grid), cols), cols), grid, keyCols, key)
  {
  }

  /** A sample's timestamp lies between the group's earliest and latest. */
  lemma StampBetween(g: seq<Row>, j: nat, t: int)
    requires j < |g| && AsTime(Get(g[j], TimeCol)) == Some(t)
    ensures Instants(Stamps(g)) != []
    ensures MinInt(Instants(Stamps(g))) <= t <= MaxInt(Instants(Stamps(g)))
  {
    assert Stamps(g)[j] == Some(t);
    assert t in Instants(Stamps(g));
  }

  /** A known cell of a sample stamped on the grid is in the output at that
      grid point, whatever the fill steps do. */
  lemma ResampleKeepsKnown(g: seq<Row>, cols: seq<string>, keyCols: seq<string>, key: seq<Cell>,
                           cadence: nat, j: nat, c: string, t: int)
    requires cadence > 0 && |key| == |keyCols| && KeyConsistent(keyCols, key)
    requires ResampleOne(g, cols, keyCols, key, cadence).Ok?
    requires j < |g| && AsTime(Get(g[j], TimeCol)) == Some(t)
    requires c in cols && c != TimeCol && c !in keyCols && Known(Get(g[j], c))
    requires (t - MinInt(Instants(Stamps(g)))) % cadence == 0
    ensures var rows := ResampleOne(g, cols, keyCols, key, cadence).value;
            var k := (t - MinInt(Instants(Stamps(g)))) / cadence;
            0 <= k < |rows| && Get(rows[k], c) == Get(g[j], c)
  {
    ResampleOneShape(g, cols, keyCols, key, cadence);
    StampBetween(g, j, t);
    var lo := MinInt(Instants(Stamps(g)));
    var hi := MaxInt(Instants(Stamps(g)));
    var grid := Grid(lo, hi, cadence);
    var filled := Interpolated(Carried(Reindexed(g, grid), cols), cols);
    var k := (t - lo) / cadence;
    SampleKept(g, j, t, lo, hi, cadence, cols, c);
    assert 0 <= k < |filled| == |grid|;
    WithKeysKeeps(filled, grid, keyCols, key, k, c);
    var rows := ResampleOne(g, cols, keyCols, key, cadence).value;
    assert rows == WithKeys(filled, grid, keyCols, key);
    assert Get(rows[k], c) == Get(g[j], c);
  }

  /** Every row of a resampling comes from one group's resampling. */
  lemma {:induction false} ResampleAllRows(rows: seq<Row>, groupCols: seq<string>, keys: seq<seq<Cell>>,
                                           cols: seq<string>, cadence: nat, out: seq<Row>, row: Row)
    requires cadence > 0 && forall i :: 0 <= i < |keys| ==> |keys[i]| == |groupCols|
    requires ResampleAll(rows, groupCols, keys, cols, cadence) == Ok(out) && row in out
    ensures exists i :: 0 <= i < |keys|
                        && ResampleOne(GroupRows(rows, groupCols, keys[i]), cols, groupCols, keys[i], cadence).Ok?
                        && row in ResampleOne(GroupRows(rows, groupCols, keys[i]), cols, groupCols, keys[i], cadence).value
  {
    var n := |keys| - 1;
    var prev := ResampleAll(rows, groupCols, keys[..n], cols, cadence).value;
    var more := ResampleOne(GroupRows(rows, groupCols, keys[n]), cols, groupCols, keys[n], cadence).value;
    assert out == prev + more;
    if row in prev {
      ResampleAllRows(rows, groupCols, keys[..n], cols, cadence, prev, row);
      var i :| 0 <= i < n
               && ResampleOne(GroupRows(rows, groupCols, keys[..n][i]), cols, groupCols, keys[..n][i], cadence).Ok?
               && row in ResampleOne(GroupRows(rows, groupCols, keys[..n][i]), cols, groupCols, keys[..n][i], cadence).value;
      assert keys[..n][i] == keys[i];
    }
  }

  /** A row is stamped on the grid of the group `key` and carries the key. */
  ghost predicate OnGroupGrid(row: Row, rows: seq<Row>, groupCols: seq<string>, key: seq<Cell>, cadence: nat)
    requires |key| == |groupCols|
  {
    var inst := Instants(Stamps(GroupRows(rows, groupCols, key)));
    && inst != []
    && (forall j :: 0 <= j < |groupCols| ==> Get(row, groupCols[j]) == key[j])
    && (TimeCol !in groupCols ==>
          exists k: nat :: Get(row, TimeCol) == Stamp(MinInt(inst) + k * cadence)
                           && MinInt(inst) <= MinInt(inst) + k * cadence <= MaxInt(inst))
  }

  lemma GroupRowOnGrid(rows: seq<Row>, groupCols: seq<string>, key: seq<Cell>, cols: seq<string>,
                       cadence: nat, row: Row)
    requires cadence > 0 && key in GroupKeys(rows, groupCols)
    requires ResampleOne(GroupRows(rows, groupCols, key), cols, groupCols, key, cadence).Ok?
    requires row in ResampleOne(GroupRows(rows, groupCols, key), cols, groupCols, key, cadence).value
    ensures |key| == |groupCols| && OnGroupGrid(row, rows, groupCols, key, cadence)
  {
    GroupKeyConsistent(rows, groupCols, key);
    var g := GroupRows(rows, groupCols, key);
    var rs := ResampleOne(g, cols, groupCols, key, cadence).value;
    var k :| 0 <= k < |rs| && rs[k] == row;
    ResampleOneGrid(g, cols, groupCols, key, cadence, k);
  }

  /** resample_group fails without a timestamp column, gives the empty
      frame when no row has a complete key, and otherwise stamps every
      output row on a grid point of its group, inside the group's range of
      valid timestamps, with the group's key in every key column. */
  lemma ResampleRows(f: Frame, groupCols: seq<string>, cadence: nat, row: Row)
    requires cadence > 0
    ensures TimeCol !in f.columns ==> Resample(f, groupCols, cadence) == Err(MissingColumn(TimeCol))
    ensures Resample(f, groupCols, cadence).Ok? && GroupKeys(f.rows, groupCols) == [] ==>
              Resample(f, groupCols, cadence) == Ok(Frame([], []))
    ensures Resample(f, groupCols, cadence).Ok? && row in Resample(f, groupCols, cadence).value.rows ==>
              exists key :: key in GroupKeys(f.rows, groupCols) && |key| == |groupCols|
                            && OnGroupGrid(row, f.rows, groupCols, key, cadence)
  {
    var keys := GroupKeys(f.rows, groupCols);
    if Resample(f, groupCols, cadence).Ok? && row in Resample(f, groupCols, cadence).value.rows && keys != [] {
      var cols := Without(f.columns, TimeCol);
      var out := ResampleAll(f.rows, groupCols, keys, cols, cadence).value;
      ResampleAllRows(f.rows, groupCols, keys, cols, cadence, out, row);
      var i :| 0 <= i < |keys|
               && ResampleOne(GroupRows(f.rows, groupCols, keys[i]), cols, groupCols, keys[i], cadence).Ok?
               && row in ResampleOne(GroupRows(f.rows, groupCols, keys[i]), cols, groupCols, keys[i], cadence).value;
      assert keys[i] in keys;
      GroupRowOnGrid(f.rows, groupCols, keys[i], cols, cadence, row);
    }
  }
}
