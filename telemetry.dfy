/** The tables the pipeline stages pass to each other: cells, rows and frames,
    numeric coercion, and the grouping every per-span stage relies on. */
module Telemetry {

  datatype Option<T> = None | Some(value: T)

  /** Why a stage refuses its input: the Python code raises in these cases. */
  datatype Failure =
    | MissingColumn(name: string)   // KeyError, or the explicit ValueError for 'timestamp'
    | NoValidTimestamp              // date_range over a group whose timestamps are all NaT
    | DuplicateTimestamps           // reindex of a group whose timestamp labels repeat
    | NoGroupKeys                   // groupby over an empty list of key columns

  datatype Result<T> = Ok(value: T) | Err(failure: Failure)

  /** One cell: a number, a string, an instant (seconds, timezone-naive), or
      missing (NaN, NA or NaT). */
  datatype Cell = Num(x: real) | Text(s: string) | Stamp(t: int) | Blank

  predicate Known(c: Cell) { !c.Blank? }

  /** A row maps column names to cells; a name the row lacks reads as missing. */
  type Row = map<string, Cell>

  datatype Frame = Frame(columns: seq<string>, rows: seq<Row>)

  function Get(r: Row, c: string): Cell { if c in r then r[c] else Blank }

  /** DataFrame.empty: no columns or no rows. */
  predicate IsEmpty(f: Frame) { |f.columns| == 0 || |f.rows| == 0 }

  /** Nanoseconds per second: the unit of a datetime64 column's integers. */
  const NanosPerSecond: int := 1000000000

  /** pd.to_numeric(..., errors="coerce") on one cell. The grammar of numeric
      strings is the parameter `parse`; a string it rejects becomes missing.
      An instant becomes its datetime64 integer, in nanoseconds. */
  function Coerce(parse: string -> Option<real>, c: Cell): Option<real>
  {
    match c
    case Num(x) => Some(x)
    case Text(s) => parse(s)
    case Stamp(t) => Some((t * NanosPerSecond) as real)
    case Blank => None
  }

  function FromOption(v: Option<real>): Cell
  {
    match v
    case Some(x) => Num(x)
    case None => Blank
  }

  /** The cell a coerced column holds. */
  function CoerceCell(parse: string -> Option<real>, c: Cell): (r: Cell)
    ensures r.Num? || r.Blank?
    ensures Known(r) <==> Coerce(parse, c).Some?
    ensures Coerce(parse, r) == Coerce(parse, c)
    ensures c.Num? || c.Blank? ==> r == c
    ensures c.Text? ==> (r.Num? <==> parse(c.s).Some?) && (r.Num? ==> r.x == parse(c.s).value)
    ensures c.Stamp? ==> r == Num((c.t * NanosPerSecond) as real)
  {
    FromOption(Coerce(parse, c))
  }

  /** `df[c] = pd.to_numeric(df[c], errors="coerce")` on a frame holding column c. */
  function CoerceColumn(f: Frame, c: string, parse: string -> Option<real>): (r: Frame)
    ensures r.columns == f.columns && |r.rows| == |f.rows|
  {
    if c !in f.columns then f
    else Frame(f.columns, seq(|f.rows|, i requires 0 <= i < |f.rows| =>
                                f.rows[i][c := CoerceCell(parse, Get(f.rows[i], c))]))
  }

  /** The columns `cs` coerced one after the other, as the loops in the source do. */
  function CoerceColumns(f: Frame, cs: seq<string>, parse: string -> Option<real>): (r: Frame)
    ensures r.columns == f.columns && |r.rows| == |f.rows|
  {
    if cs == [] then f
    else CoerceColumn(CoerceColumns(f, cs[..|cs| - 1], parse), cs[|cs| - 1], parse)
  }

  /** Cell by cell: a coerced column holds the coerced value of its original
      cell, and every other column is untouched. Coercing a column twice is
      the same as coercing it once. */
  lemma {:induction false} CoerceColumnsAt(f: Frame, cs: seq<string>, parse: string -> Option<real>, i: nat, c: string)
    requires i < |f.rows|
    ensures Get(CoerceColumns(f, cs, parse).rows[i], c)
         == if c in cs && c in f.columns then CoerceCell(parse, Get(f.rows[i], c)) else Get(f.rows[i], c)
  {
    if cs != [] {
      var init := cs[..|cs| - 1];
      CoerceColumnsAt(f, init, parse, i, c);
      assert c in cs <==> c in init || c == cs[|cs| - 1] by {
        assert cs == init + [cs[|cs| - 1]];
      }
    }
  }

  function AsTime(c: Cell): Option<int> { if c.Stamp? then Some(c.t) else None }

  /** Positions listed in strictly increasing order. */
  predicate Increasing(idx: seq<nat>)
  {
    forall i, j :: 0 <= i < j < |idx| ==> idx[i] < idx[j]
  }

  predicate Distinct<T(==)>(s: seq<T>)
  {
    forall i, j :: 0 <= i < j < |s| ==> s[i] != s[j]
  }

  /** The distinct elements of s, in order of first appearance (the key order
      of a dict filled from s). */
  function Dedup<T(==,!new)>(s: seq<T>): (r: seq<T>)
    ensures Distinct(r)
    ensures forall x :: x in r <==> x in s
    ensures |r| <= |s|
  {
    if s == [] then []
    else
      var d := Dedup(s[..|s| - 1]);
      assert forall x :: x in s <==> x in s[..|s| - 1] || x == s[|s| - 1] by {
        assert s == s[..|s| - 1] + [s[|s| - 1]];
      }
      if s[|s| - 1] in d then d else d + [s[|s| - 1]]
  }

  /** Appending one element adds it to the deduplication unless already there. */
  lemma DedupSnoc<T(!new)>(s: seq<T>, x: T)
    ensures Dedup(s + [x]) == if x in Dedup(s) then Dedup(s) else Dedup(s) + [x]
  {
    assert (s + [x])[..|s|] == s;
  }

  /** A sequence without repeats is its own deduplication: nothing is lost. */
  lemma {:induction false} DedupOfDistinct<T(!new)>(s: seq<T>)
    requires Distinct(s)
    ensures Dedup(s) == s
  {
    if s != [] {
      var init := s[..|s| - 1];
      DedupOfDistinct(init);
      assert s[|s| - 1] !in init;
      assert init + [s[|s| - 1]] == s;
    }
  }

  /** The first of `variants` that is a column, as the loops with `break` in
      the source find it. */
  function FirstPresent(variants: seq<string>, columns: seq<string>): (r: Option<string>)
    ensures r.Some? ==> r.value in variants && r.value in columns
    ensures r.Some? ==> exists i :: 0 <= i < |variants| && variants[i] == r.value
                          && forall j :: 0 <= j < i ==> variants[j] !in columns
    ensures r.None? <==> forall v :: v in variants ==> v !in columns
  {
    if variants == [] then None
    else if variants[0] in columns then
      Some(variants[0])
    else
      var r := FirstPresent(variants[1..], columns);
      if r.Some? then
        var i :| 0 <= i < |variants[1..]| && variants[1..][i] == r.value
                 && forall j :: 0 <= j < i ==> variants[1..][j] !in columns;
        assert variants[i + 1] == r.value;
        assert forall j :: 0 <= j < i + 1 ==> variants[j] !in columns by {
          forall j | 0 <= j < i + 1 ensures variants[j] !in columns {
            if j > 0 { assert variants[j] == variants[1..][j - 1]; }
          }
        }
        r
      else
        assert forall v :: v in variants ==> v == variants[0] || v in variants[1..];
        r
  }

  function MinInt(s: seq<int>): (m: int)
    requires |s| > 0
    ensures m in s && forall i :: 0 <= i < |s| ==> m <= s[i]
  {
    if |s| == 1 then s[0]
    else
      var m := MinInt(s[..|s| - 1]);
      assert forall i :: 0 <= i < |s| - 1 ==> s[..|s| - 1][i] == s[i];
      if s[|s| - 1] < m then s[|s| - 1] else m
  }

  function MaxInt(s: seq<int>): (m: int)
    requires |s| > 0
    ensures m in s && forall i :: 0 <= i < |s| ==> s[i] <= m
  {
    if |s| == 1 then s[0]
    else
      var m := MaxInt(s[..|s| - 1]);
      assert forall i :: 0 <= i < |s| - 1 ==> s[..|s| - 1][i] == s[i];
      if s[|s| - 1] > m then s[|s| - 1] else m
  }

  /** The valid instants among possibly-missing timestamps, in order (dropna). */
  function Instants(ts: seq<Option<int>>): (r: seq<int>)
    ensures forall t :: t in r <==> Some(t) in ts
    ensures |r| <= |ts|
  {
    if ts == [] then []
    else
      var init := Instants(ts[..|ts| - 1]);
      assert ts == ts[..|ts| - 1] + [ts[|ts| - 1]];
      match ts[|ts| - 1]
      case Some(t) => init + [t]
      case None => init
  }

  /** dropna keeps every valid instant as often as it occurs, so the count
      is the number of timestamps less the missing ones. */
  lemma {:induction false} InstantsCount(ts: seq<Option<int>>)
    ensures |Instants(ts)| + multiset(ts)[None] == |ts|
    ensures forall t :: multiset(Instants(ts))[t] == multiset(ts)[Some(t)]
  {
    if ts != [] {
      var n := |ts| - 1;
      var init := ts[..n];
      InstantsCount(init);
      assert ts == init + [ts[n]];
      assert multiset(ts) == multiset(init) + multiset{ts[n]};
      match ts[n]
      case Some(t) =>
        assert Instants(ts) == Instants(init) + [t];
        assert multiset(Instants(ts)) == multiset(Instants(init)) + multiset{t};
      case None =>
        assert Instants(ts) == Instants(init);
    }
  }

  /** The parts each element gives, concatenated in order. */
  function Concat<X, Y>(xs: seq<X>, each: X -> seq<Y>): seq<Y>
  {
    if xs == [] then [] else Concat(xs[..|xs| - 1], each) + each(xs[|xs| - 1])
  }

  /** One more element appends its part. */
  lemma ConcatStep<X, Y>(xs: seq<X>, each: X -> seq<Y>, i: nat)
    requires i < |xs|
    ensures Concat(xs[..i + 1], each) == Concat(xs[..i], each) + each(xs[i])
  {
    assert xs[..i + 1][..i] == xs[..i];
  }

  /** An element of the concatenation is an element of one part. */
  lemma {:induction false} ConcatExact<X, Y>(xs: seq<X>, each: X -> seq<Y>, y: Y)
    ensures y in Concat(xs, each) <==> exists i :: 0 <= i < |xs| && y in each(xs[i])
  {
    if xs != [] {
      var n := |xs| - 1;
      ConcatExact(xs[..n], each, y);
      if y in Concat(xs[..n], each) {
        var i :| 0 <= i < n && y in each(xs[..n][i]);
        assert xs[..n][i] == xs[i];
      }
      if exists i :: 0 <= i < |xs| && y in each(xs[i]) {
        var i :| 0 <= i < |xs| && y in each(xs[i]);
        if i < n { assert xs[..n][i] == xs[i]; }
      }
    }
  }

  // ---- grouping (DataFrame.groupby with its default dropna=True) ----

  /** The cells of the key columns of a row. */
  function KeyOf(r: Row, keys: seq<string>): (k: seq<Cell>)
    ensures |k| == |keys| && forall j :: 0 <= j < |keys| ==> k[j] == Get(r, keys[j])
  {
    seq(|keys|, j requires 0 <= j < |keys| => Get(r, keys[j]))
  }

  /** groupby drops rows with a missing key cell. */
  predicate CompleteKey(k: seq<Cell>) { forall j :: 0 <= j < |k| ==> Known(k[j]) }

  function CompleteKeys(rows: seq<Row>, keys: seq<string>): (r: seq<seq<Cell>>)
    ensures forall k :: k in r <==> CompleteKey(k) && exists i :: 0 <= i < |rows| && KeyOf(rows[i], keys) == k
  {
    if rows == [] then []
    else
      var init := CompleteKeys(rows[..|rows| - 1], keys);
      var k := KeyOf(rows[|rows| - 1], keys);
      assert forall i :: 0 <= i < |rows| - 1 ==> rows[..|rows| - 1][i] == rows[i];
      if CompleteKey(k) then init + [k] else init
  }

  /** The groups' keys, each once, in order of first appearance. */
  function GroupKeys(rows: seq<Row>, keys: seq<string>): (r: seq<seq<Cell>>)
    ensures Distinct(r)
    ensures forall k :: k in r <==> CompleteKey(k) && exists i :: 0 <= i < |rows| && KeyOf(rows[i], keys) == k
    ensures forall j :: 0 <= j < |r| ==> |r[j]| == |keys|
  {
    var r := Dedup(CompleteKeys(rows, keys));
    assert forall j :: 0 <= j < |r| ==> r[j] in r;
    r
  }

  /** The rows of one group, in row order. */
  function GroupRows(rows: seq<Row>, keys: seq<string>, k: seq<Cell>): (g: seq<Row>)
    ensures forall r :: r in g ==> r in rows && KeyOf(r, keys) == k
    ensures |g| <= |rows|
  {
    if rows == [] then []
    else
      var init := GroupRows(rows[..|rows| - 1], keys, k);
      var last := rows[|rows| - 1];
      assert forall r :: r in rows[..|rows| - 1] ==> r in rows;
      if KeyOf(last, keys) == k then init + [last] else init
  }

  /** A row is in a group exactly when it carries the group's key. */
  lemma {:induction false} GroupRowsComplete(rows: seq<Row>, keys: seq<string>, k: seq<Cell>, i: nat)
    requires i < |rows|
    ensures rows[i] in GroupRows(rows, keys, k) <==> KeyOf(rows[i], keys) == k
  {
    var n := |rows| - 1;
    var init := GroupRows(rows[..n], keys, k);
    if i < n {
      GroupRowsComplete(rows[..n], keys, k, i);
      assert rows[..n][i] == rows[i];
    }
  }

  /** The first column of `keys` the frame lacks: groupby raises KeyError on it. */
  function FirstMissing(keys: seq<string>, columns: seq<string>): (r: Option<string>)
    ensures r.Some? ==> r.value in keys && r.value !in columns
    ensures r.None? <==> forall k :: k in keys ==> k in columns
  {
    if keys == [] then None
    else if keys[0] !in columns then Some(keys[0])
    else
      assert forall k :: k in keys ==> k == keys[0] || k in keys[1..];
      FirstMissing(keys[1..], columns)
  }

  // ---- flattened statistic column names ('<col>_<stat>') ----

  function FlatName(col: string, stat: string): string { col + "_" + stat }

  predicate NoUnderscore(s: string) { forall i :: 0 <= i < |s| ==> s[i] != '_' }

  /** Index of the last '_' in a, or -1. */
  function LastUnderscore(a: string): int
  {
    if a == [] then -1
    else if a[|a| - 1] == '_' then |a| - 1
    else LastUnderscore(a[..|a| - 1])
  }

  lemma {:induction false} LastUnderscoreOfFlatName(c: string, s: string)
    requires NoUnderscore(s)
    ensures LastUnderscore(FlatName(c, s)) == |c|
  {
    if s != [] {
      var init := s[..|s| - 1];
      assert FlatName(c, s)[..|FlatName(c, s)| - 1] == FlatName(c, init);
      LastUnderscoreOfFlatName(c, init);
    }
  }

  /** Two flattened names agree only when column and statistic both agree,
      provided the statistic names hold no '_'. */
  lemma FlatNameInjective(c1: string, s1: string, c2: string, s2: string)
    requires NoUnderscore(s1) && NoUnderscore(s2)
    requires FlatName(c1, s1) == FlatName(c2, s2)
    ensures c1 == c2 && s1 == s2
  {
    var a := FlatName(c1, s1);
    LastUnderscoreOfFlatName(c1, s1);
    LastUnderscoreOfFlatName(c2, s2);
    assert c1 == a[..|c1|] == c2;
    assert s1 == a[|c1| + 1..] == s2;
  }
}
