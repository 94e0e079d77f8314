/** The parts of CSV ingestion that are rules rather than I/O: the vendor
    "no sample" tokens, the trimming of header names, and the choice and
    order of the CSV files in a directory listing. */
module Ingest {
  import opened Telemetry

  // ---- vendor sentinels (ingest.py, _clean_na_values) ----

  /** The vendor encodings of "no sample". */
  const NaTokens: seq<string> := ["NS", "-99.95", "-99.9", "-40.0", ""]

  predicate IsNaToken(c: Cell) { c.Text? && c.s in NaTokens }

  function CleanNaCell(c: Cell): Cell { if IsNaToken(c) then Blank else c }

  /** df.replace(NaTokens, pd.NA) over every cell of the frame. */
  function CleanNaValues(f: Frame): (r: Frame)
    ensures r.columns == f.columns && |r.rows| == |f.rows|
  {
    Frame(f.columns, seq(|f.rows|, i requires 0 <= i < |f.rows| =>
                           map c | c in f.rows[i] :: CleanNaCell(f.rows[i][c])))
  }

  /** A cell becomes missing exactly when it is one of the five tokens (or
      was already missing); every other cell is left as it was. */
  lemma CleanNaValuesAt(f: Frame, i: nat, c: string)
    requires i < |f.rows|
    ensures var after := Get(CleanNaValues(f).rows[i], c);
            var before := Get(f.rows[i], c);
            (after.Blank? <==> before.Blank? || (before.Text? && before.s in NaTokens))
            && (!IsNaToken(before) ==> after == before)
  {
  }

  /** Cleaning twice is cleaning once. */
  lemma CleanNaValuesIdempotent(f: Frame)
    ensures CleanNaValues(CleanNaValues(f)) == CleanNaValues(f)
  {
    var once := CleanNaValues(f);
    var twice := CleanNaValues(once);
    forall i | 0 <= i < |f.rows| ensures twice.rows[i] == once.rows[i] {
      assert twice.rows[i].Keys == once.rows[i].Keys;
      forall c | c in once.rows[i] ensures twice.rows[i][c] == once.rows[i][c] {
        assert !IsNaToken(once.rows[i][c]);
      }
    }
  }

  // ---- header trim (ingest.py, load_csv_files) ----

  /** Python's str.isspace() on one character. */
  predicate IsSpace(ch: char)
  {
    var n := ch as int;
    n == 0x20 || 0x09 <= n <= 0x0D || 0x1C <= n <= 0x1F || n == 0x85 || n == 0xA0
    || n == 0x1680 || 0x2000 <= n <= 0x200A || n == 0x2028 || n == 0x2029
    || n == 0x202F || n == 0x205F || n == 0x3000
  }

  predicate AllSpace(s: string) { forall i :: 0 <= i < |s| ==> IsSpace(s[i]) }

  /** The number of whitespace characters at the start of s. */
  function Leading(s: string): (n: nat)
    ensures n <= |s| && AllSpace(s[..n]) && (n == |s| || !IsSpace(s[n]))
  {
    if s != [] && IsSpace(s[0]) then
      var n := Leading(s[1..]);
      var head := s[..n + 1];
      forall i | 0 <= i < |head| ensures IsSpace(head[i]) {
        if i > 0 { assert head[i] == s[1..][..n][i - 1]; }
      }
      n + 1
    else 0
  }

  /** The number of whitespace characters at the end of s. */
  function Trailing(s: string): (n: nat)
    ensures n <= |s| && AllSpace(s[|s| - n..]) && (n == |s| || !IsSpace(s[|s| - n - 1]))
  {
    if s != [] && IsSpace(s[|s| - 1]) then
      var init := s[..|s| - 1];
      var n := Trailing(init);
      var tail := s[|s| - n - 1..];
      forall i | 0 <= i < |tail| ensures IsSpace(tail[i]) {
        if i < n { assert tail[i] == init[|init| - n..][i]; }
      }
      n + 1
    else 0
  }

  /** str.strip(): the text with surrounding whitespace removed. */
  function Strip(s: string): string
  {
    var l := s[Leading(s)..];
    l[..|l| - Trailing(l)]
  }

  /** What strip removes is whitespace at either end, and what it keeps is a
      contiguous piece of the text that neither starts nor ends with it. */
  lemma StripShape(s: string)
    ensures exists i, j :: 0 <= i <= j <= |s| && Strip(s) == s[i..j]
              && AllSpace(s[..i]) && AllSpace(s[j..])
    ensures Strip(s) == [] || (!IsSpace(Strip(s)[0]) && !IsSpace(Strip(s)[|Strip(s)| - 1]))
  {
    var i := Leading(s);
    var l := s[i..];
    var t := Trailing(l);
    var j := i + |l| - t;
    var r := l[..|l| - t];
    assert Strip(s) == r;
    assert r == s[i..j];
    assert s[j..] == l[|l| - t..];
    assert AllSpace(s[..i]) && AllSpace(s[j..]);
    if r != [] {
      assert r[0] == s[i] && !IsSpace(s[i]);
      assert r[|r| - 1] == l[|l| - t - 1];
    }
  }

  /** Stripping twice is stripping once. */
  lemma StripIdempotent(s: string)
    ensures Strip(Strip(s)) == Strip(s)
  {
    StripShape(s);
  }

  /** `df.columns = [c.strip() for c in df.columns]`. */
  function TrimHeader(header: seq<string>): (r: seq<string>)
    ensures |r| == |header|
  {
    seq(|header|, i requires 0 <= i < |header| => Strip(header[i]))
  }

  /** The Time column is looked up after the trim, so a header cell that is
      "Time" up to surrounding whitespace is found. */
  lemma TimeFoundAfterTrim(header: seq<string>)
    ensures "Time" in TrimHeader(header) <==> exists i :: 0 <= i < |header| && Strip(header[i]) == "Time"
  {
    var t := TrimHeader(header);
    if "Time" in t {
      var i :| 0 <= i < |t| && t[i] == "Time";
      assert Strip(header[i]) == "Time";
    }
    forall i | 0 <= i < |header| && Strip(header[i]) == "Time" ensures "Time" in t {
      assert t[i] == Strip(header[i]);
    }
  }

  lemma StripPaddedTime()
    ensures Strip(" Time ") == "Time"
  {
    var s := " Time ";
    assert IsSpace(s[0]) && !IsSpace(s[1]);
    assert Leading(s[1..]) == 0;
    var l := s[1..];
    assert l == "Time " && IsSpace(l[4]) && !IsSpace(l[3]);
    assert Trailing(l[..4]) == 0;
  }

  lemma StripTabbedTP()
    ensures Strip("TP\t") == "TP"
  {
    var s := "TP\t";
    assert !IsSpace(s[0]) && IsSpace(s[2]) && !IsSpace(s[1]);
    assert Trailing(s[..2]) == 0;
  }

  lemma TrimPair(a: string, b: string)
    ensures TrimHeader([a, b]) == [Strip(a), Strip(b)]
  {
    var h := TrimHeader([a, b]);
    assert |h| == 2 && h[0] == Strip(a) && h[1] == Strip(b);
  }

  lemma PaddedTimeHeader()
    ensures TrimHeader([" Time ", "TP\t"]) == ["Time", "TP"]
  {
    TrimPair(" Time ", "TP\t");
    StripPaddedTime();
    StripTabbedTP();
  }

  // ---- CSV names in a directory listing (ingest.py, find_csvs_in_dir) ----

  /** str.lower() on the ASCII letters. */
  function LowerChar(ch: char): char
  {
    if 'A' <= ch <= 'Z' then (ch as int + 32) as char else ch
  }

  function Lower(s: string): (r: string)
    ensures |r| == |s|
  {
    seq(|s|, i requires 0 <= i < |s| => LowerChar(s[i]))
  }

  predicate EndsWith(s: string, suffix: string)
  {
    |suffix| <= |s| && s[|s| - |suffix|..] == suffix
  }

  predicate IsCsvName(entry: string) { EndsWith(Lower(entry), ".csv") }

  /** os.path.join(directory, entry) on POSIX paths. */
  function JoinPath(directory: string, entry: string): string
  {
    if |entry| > 0 && entry[0] == '/' then entry
    else if directory == [] || directory[|directory| - 1] == '/' then directory + entry
    else directory + "/" + entry
  }

  /** The joined paths of the CSV entries, in listing order. */
  function CsvPaths(directory: string, listing: seq<string>): (r: seq<string>)
    ensures forall p :: p in r <==> exists e :: e in listing && IsCsvName(e) && p == JoinPath(directory, e)
  {
    if listing == [] then []
    else
      var init := listing[..|listing| - 1];
      var e := listing[|listing| - 1];
      assert listing == init + [e];
      CsvPaths(directory, init) + if IsCsvName(e) then [JoinPath(directory, e)] else []
  }

  /** Python's ordering of str: code point by code point, a proper prefix first. */
  predicate LexLe(a: string, b: string)
  {
    a == [] || (b != [] && (a[0] < b[0] || (a[0] == b[0] && LexLe(a[1..], b[1..]))))
  }

  lemma {:induction false} LexTotal(a: string, b: string)
    ensures LexLe(a, b) || LexLe(b, a)
  {
    if a != [] && b != [] && a[0] == b[0] {
      LexTotal(a[1..], b[1..]);
    }
  }

  predicate SortedPaths(s: seq<string>)
  {
    forall i :: 0 <= i < |s| - 1 ==> LexLe(s[i], s[i + 1])
  }

  function InsertPath(x: string, s: seq<string>): (r: seq<string>)
    requires SortedPaths(s)
    ensures SortedPaths(r) && multiset(r) == multiset(s) + multiset{x}
    ensures r[0] == x || (s != [] && r[0] == s[0])
  {
    if s == [] then [x]
    else if LexLe(x, s[0]) then [x] + s
    else
      LexTotal(x, s[0]);
      var t := InsertPath(x, s[1..]);
      assert s == [s[0]] + s[1..];
      assert forall i :: 0 < i < |t| + 1 ==> ([s[0]] + t)[i] == t[i - 1];
      [s[0]] + t
  }

  /** sorted(): the paths in ascending order. */
  function SortPaths(s: seq<string>): (r: seq<string>)
    ensures SortedPaths(r) && multiset(r) == multiset(s)
  {
    if s == [] then []
    else
      assert s == s[..|s| - 1] + [s[|s| - 1]];
      InsertPath(s[|s| - 1], SortPaths(s[..|s| - 1]))
  }

  /** find_csvs_in_dir over a directory listing: the joined paths of exactly
      the entries whose lower-cased name ends in ".csv", sorted ascending. */
  method FindCsvsInDir(directory: string, listing: seq<string>) returns (r: seq<string>)
    ensures SortedPaths(r)
    ensures multiset(r) == multiset(CsvPaths(directory, listing))
  {
    var files: seq<string> := [];
    for i := 0 to |listing|
      invariant files == CsvPaths(directory, listing[..i])
    {
      assert listing[..i + 1][..i] == listing[..i];
      if IsCsvName(listing[i]) {
        files := files + [JoinPath(directory, listing[i])];
      }
    }
    assert listing[..|listing|] == listing;
    r := SortPaths(files);
  }

  /** Upper-case extensions are kept; other extensions and names that merely
      contain ".csv" are not. */
  lemma CsvNameExamples()
    ensures IsCsvName("RUN1.CSV") && IsCsvName("a.csv")
    ensures !IsCsvName("notes.txt") && !IsCsvName("a.csv.bak") && !IsCsvName("csv")
  {
    assert Lower("RUN1.CSV") == "run1.csv";
    assert Lower("a.csv")[1..] == ".csv";
    assert Lower("a.csv.bak")[5..] == ".bak";
    assert Lower("notes.txt")[5..] == ".txt";
  }
}
