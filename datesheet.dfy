/**
 * backend/services/datesheet.py over an explicit model of the pandas
 * DataFrame that `pd.read_excel` returns: a header row of strings and data
 * rows of cells. Each service is a method that runs the source's loops, proved
 * against a function that the HTTP handlers of main.py (module Api) use.
 */
module Datesheet {
  import opened Wrappers
  import opened Text
  import opened Sequences
  import opened Sorting
  import opened Schedule

  /** A cell as pandas holds it: missing (NaN), a string, or any other value (a number, a timestamp), kept as an opaque tag. */
  datatype Cell = Missing | Str(s: string) | Other(tag: int)

  /** A DataFrame: the header row and the data rows. */
  datatype Frame = Frame(columns: seq<string>, rows: seq<seq<Cell>>)

  /** Every row has one cell per column, as in every DataFrame. */
  ghost predicate WellFormed(f: Frame) {
    forall r :: 0 <= r < |f.rows| ==> |f.rows[r]| == |f.columns|
  }

  // ---------------------------------------------------------------------------
  // load_datesheet

  /** `row.isna().sum()`. */
  function MissingCount(row: seq<Cell>): (n: nat)
    ensures n == multiset(row)[Missing]
    decreases |row|
  {
    if row == [] then 0
    else
      assert row == row[..|row| - 1] + [row[|row| - 1]];
      MissingCount(row[..|row| - 1]) + (if row[|row| - 1] == Missing then 1 else 0)
  }

  /** Row `k` has a value in column `c`. */
  predicate Present(rows: seq<seq<Cell>>, k: nat, c: nat)
    requires k < |rows|
  {
    c < |rows[k]| && rows[k][c] != Missing
  }

  /**
   * What `ffill()` leaves in row `i` of column `c`: the value of the nearest
   * row at or above `i` that has one, or Missing when no such row exists.
   */
  function LastPresent(rows: seq<seq<Cell>>, i: nat, c: nat): Cell
    requires i < |rows|
    decreases i
  {
    if Present(rows, i, c) then rows[i][c]
    else if i == 0 then Missing
    else LastPresent(rows, i - 1, c)
  }

  /**
   * LastPresent is Missing exactly when no row up to `i` has a value in
   * column `c`; otherwise it is the value of the last row up to `i` that has one.
   */
  lemma {:induction false} LastPresentSpec(rows: seq<seq<Cell>>, i: nat, c: nat)
    requires i < |rows|
    ensures LastPresent(rows, i, c) == Missing <==> forall k :: 0 <= k <= i ==> !Present(rows, k, c)
    ensures LastPresent(rows, i, c) != Missing ==>
      exists k :: 0 <= k <= i && Present(rows, k, c) && rows[k][c] == LastPresent(rows, i, c) &&
        forall k' :: k < k' <= i ==> !Present(rows, k', c)
    decreases i
  {
    if !Present(rows, i, c) && i > 0 {
      LastPresentSpec(rows, i - 1, c);
    }
  }

  /** The rows `load_datesheet` keeps: all but the first when more than half of that one's cells are missing. */
  function KeptRows(raw: Frame): seq<seq<Cell>>
    requires raw.rows != []
  {
    if MissingCount(raw.rows[0]) > |raw.columns| / 2 then raw.rows[1..] else raw.rows
  }

  /** `df.iloc[:, :2] = df.iloc[:, :2].ffill()`: the Day and Date columns forward-filled, the others untouched. */
  function FillDown(rows: seq<seq<Cell>>): (r: seq<seq<Cell>>)
    ensures |r| == |rows| && forall i :: 0 <= i < |rows| ==> |r[i]| == |rows[i]|
  {
    seq(|rows|, i requires 0 <= i < |rows| =>
      seq(|rows[i]|, c requires 0 <= c < |rows[i]| => if c < 2 then LastPresent(rows, i, c) else rows[i][c]))
  }

  /** `load_datesheet` once the sheet is read; `df.iloc[0]` on a sheet without data rows raises. */
  function Load(raw: Frame): Option<Frame>
    requires WellFormed(raw)
  {
    if raw.rows == [] then None else Some(Frame(raw.columns, FillDown(KeptRows(raw))))
  }

  /** `load_datesheet` fails on a sheet without data rows, keeps the header, and drops the first row iff it is mostly empty. */
  lemma LoadSpec(raw: Frame)
    requires WellFormed(raw)
    ensures Load(raw).None? <==> raw.rows == []
    ensures raw.rows != [] ==> Load(raw).value.columns == raw.columns && WellFormed(Load(raw).value)
    ensures raw.rows != [] ==>
      |Load(raw).value.rows| == |raw.rows| - (if MissingCount(raw.rows[0]) > |raw.columns| / 2 then 1 else 0)
    ensures raw.rows != [] ==> raw.rows[|raw.rows| - |Load(raw).value.rows|..] == KeptRows(raw)
  {
  }

  /**
   * Forward filling touches only missing Day and Date cells: every other cell
   * keeps its value, and a missing Day or Date takes the filled value of the
   * row above (Missing on the first row).
   */
  lemma LoadFillsFromAbove(raw: Frame, i: nat, c: nat)
    requires WellFormed(raw) && raw.rows != []
    requires i < |Load(raw).value.rows| && c < |raw.columns|
    ensures var df, kept := Load(raw).value, KeptRows(raw);
      && (c >= 2 || kept[i][c] != Missing ==> df.rows[i][c] == kept[i][c])
      && (c < 2 && kept[i][c] == Missing ==> df.rows[i][c] == if i == 0 then Missing else df.rows[i - 1][c])
  {
  }

  /** After the first value in the Day or Date column, no cell of that column is missing. */
  lemma LoadLeavesNoGaps(raw: Frame, k: nat, i: nat, c: nat)
    requires WellFormed(raw) && raw.rows != []
    requires k <= i < |Load(raw).value.rows| && c < 2 && c < |raw.columns|
    requires Load(raw).value.rows[k][c] != Missing
    ensures Load(raw).value.rows[i][c] != Missing
  {
    var kept := KeptRows(raw);
    var df := Load(raw).value;
    assert df.rows[k][c] == LastPresent(kept, k, c);
    assert df.rows[i][c] == LastPresent(kept, i, c);
    LastPresentSpec(kept, k, c);
    LastPresentSpec(kept, i, c);
  }

  /**
   * `ffill()` on column `c`, one row at a time: a missing cell takes the last
   * value seen above it. `kept` is the table before any filling; column `c`
   * of `rows` still holds its values.
   */
  method FillColumn(rows: seq<seq<Cell>>, ghost kept: seq<seq<Cell>>, c: nat) returns (filled: seq<seq<Cell>>)
    requires |rows| == |kept| && forall i :: 0 <= i < |rows| ==> |rows[i]| == |kept[i]| && c < |rows[i]|
    requires forall i :: 0 <= i < |rows| ==> rows[i][c] == kept[i][c]
    ensures |filled| == |rows| && forall i :: 0 <= i < |rows| ==> |filled[i]| == |rows[i]|
    ensures forall i, c' :: 0 <= i < |rows| && 0 <= c' < |rows[i]| ==>
      filled[i][c'] == if c' == c then LastPresent(kept, i, c) else rows[i][c']
  {
    filled := rows;
    var last := Missing;
    for i := 0 to |rows|
      invariant |filled| == |rows| && forall i' :: 0 <= i' < |rows| ==> |filled[i']| == |rows[i']|
      invariant last == if i == 0 then Missing else LastPresent(kept, i - 1, c)
      invariant forall i', c' :: 0 <= i' < |rows| && 0 <= c' < |rows[i']| ==>
        filled[i'][c'] == if c' == c && i' < i then LastPresent(kept, i', c) else rows[i'][c']
    {
      if filled[i][c] == Missing {
        filled := filled[i := filled[i][c := last]];
      } else {
        last := filled[i][c];
      }
    }
  }

  /**
   * `load_datesheet`: drop the first row when it is mostly empty, then fill
   * Day and Date downwards, a column at a time.
   */
  method LoadDatesheet(raw: Frame) returns (df: Option<Frame>)
    requires WellFormed(raw)
    ensures df == Load(raw)
  {
    if |raw.rows| == 0 {
      return None;
    }
    var rows := raw.rows;
    if MissingCount(rows[0]) > |raw.columns| / 2 {
      rows := rows[1..];
    }
    ghost var kept := rows;
    var width := if |raw.columns| < 2 then |raw.columns| else 2;
    for c := 0 to width
      invariant |rows| == |kept| && forall i :: 0 <= i < |rows| ==> |rows[i]| == |kept[i]| == |raw.columns|
      invariant forall i, c' :: 0 <= i < |rows| && 0 <= c' < |raw.columns| ==>
        rows[i][c'] == if c' < c then LastPresent(kept, i, c') else kept[i][c']
    {
      rows := FillColumn(rows, kept, c);
    }
    forall i | 0 <= i < |rows| ensures rows[i] == FillDown(kept)[i] {
      assert |rows[i]| == |FillDown(kept)[i]|;
      assert forall c' :: 0 <= c' < |rows[i]| ==> rows[i][c'] == FillDown(kept)[i][c'];
    }
    assert rows == FillDown(kept);
    df := Some(Frame(raw.columns, rows));
  }

  // ---------------------------------------------------------------------------
  // get_courses_with_codes

  /** `df.iloc[:, 2:]`: every row without its Day and Date cells. */
  function CourseColumns(rows: seq<seq<Cell>>): (r: seq<seq<Cell>>)
    ensures |r| == |rows| && forall i :: 0 <= i < |rows| ==> r[i] == if |rows[i]| >= 2 then rows[i][2..] else []
  {
    seq(|rows|, i requires 0 <= i < |rows| => if |rows[i]| >= 2 then rows[i][2..] else [])
  }

  /** The row has a value (`dropna(how="all")` keeps it). */
  predicate HasValue(row: seq<Cell>) {
    exists c :: 0 <= c < |row| && row[c] != Missing
  }

  /** `df.iloc[:, 2:].dropna(how="all").values.flatten()`. */
  function CourseCells(df: Frame): seq<Cell> {
    Flatten(Filter(CourseColumns(df.rows), HasValue))
  }

  /** The n-th pair of the stepped loop, `courses[2n], courses[2n + 1]`, holds two strings whose stripped values are `p`. */
  predicate PairAt(cells: seq<Cell>, n: nat, p: (string, string)) {
    2 * n + 1 < |cells| && cells[2 * n].Str? && cells[2 * n + 1].Str? &&
    p == (Strip(cells[2 * n].s), Strip(cells[2 * n + 1].s))
  }

  /** `course_data` after the stepped loop: the stripped (code, name) pairs at even positions. */
  function CodePairs(cells: seq<Cell>): set<(string, string)>
    decreases |cells|
  {
    if |cells| < 2 then {}
    else (if cells[0].Str? && cells[1].Str? then {(Strip(cells[0].s), Strip(cells[1].s))} else {}) + CodePairs(cells[2..])
  }

  /** Pair n + 1 of `cells` is pair n of `cells[2..]`. */
  lemma PairAtShift(cells: seq<Cell>, n: nat, p: (string, string))
    requires |cells| >= 2
    ensures PairAt(cells, n + 1, p) <==> PairAt(cells[2..], n, p)
  {
    if 2 * n + 1 < |cells[2..]| {
      assert cells[2..][2 * n] == cells[2 * (n + 1)] && cells[2..][2 * n + 1] == cells[2 * (n + 1) + 1];
    }
  }

  /** One step of the stepped loop from position `i`. */
  lemma CodePairsStep(cells: seq<Cell>, i: nat)
    requires i + 1 < |cells|
    ensures CodePairs(cells[i..]) ==
      (if cells[i].Str? && cells[i + 1].Str? then {(Strip(cells[i].s), Strip(cells[i + 1].s))} else {}) + CodePairs(cells[i + 2..])
  {
    assert cells[i..][2..] == cells[i + 2..];
  }

  /** `course_data` holds exactly the stripped pairs of strings that start at even positions. */
  lemma {:induction false} CodePairsSpec(cells: seq<Cell>)
    ensures forall p :: p in CodePairs(cells) <==> exists n: nat :: PairAt(cells, n, p)
    decreases |cells|
  {
    if |cells| >= 2 {
      var rest := cells[2..];
      CodePairsSpec(rest);
      var head := if cells[0].Str? && cells[1].Str? then {(Strip(cells[0].s), Strip(cells[1].s))} else {};
      assert CodePairs(cells) == head + CodePairs(rest);
      forall p ensures p in CodePairs(cells) <==> exists n: nat :: PairAt(cells, n, p) {
        if exists n: nat :: PairAt(cells, n, p) {
          var n: nat :| PairAt(cells, n, p);
          if n != 0 {
            PairAtShift(cells, n - 1, p);
          }
        }
        if exists n: nat :: PairAt(rest, n, p) {
          var n: nat :| PairAt(rest, n, p);
          PairAtShift(cells, n, p);
        }
        if p in head {
          assert PairAt(cells, 0, p);
        }
      }
    }
  }

  /** The course records of a sorted list of pairs. */
  function AsCourses(sorted: seq<(string, string)>): (r: seq<Course>)
    ensures |r| == |sorted| && forall k :: 0 <= k < |sorted| ==> r[k] == Course(sorted[k].0, sorted[k].1)
  {
    seq(|sorted|, k requires 0 <= k < |sorted| => Course(sorted[k].0, sorted[k].1))
  }

  /** `[{"code": code, "name": name} for code, name in sorted(course_data)]`. */
  function CourseListing(df: Frame): (courses: seq<Course>)
    ensures forall i, j :: 0 <= i < j < |courses| ==> PairLt((courses[i].code, courses[i].name), (courses[j].code, courses[j].name))
    ensures forall c :: c in courses <==> (c.code, c.name) in CodePairs(CourseCells(df))
  {
    var sorted := SortedListing(CodePairs(CourseCells(df)));
    var r := AsCourses(sorted);
    assert forall c :: c in r <==> (c.code, c.name) in sorted by {
      forall c ensures c in r <==> (c.code, c.name) in sorted {
        if (c.code, c.name) in sorted {
          var k :| 0 <= k < |sorted| && sorted[k] == (c.code, c.name);
          assert r[k] == c;
        }
      }
    }
    r
  }

  /**
   * A course is listed iff its code and name are the stripped cells of a
   * stepped pair of strings; both are stripped, and no course is listed twice.
   */
  lemma CourseListingSpec(df: Frame)
    ensures forall c :: c in CourseListing(df) <==> exists n: nat :: PairAt(CourseCells(df), n, (c.code, c.name))
    ensures forall c :: c in CourseListing(df) ==> Strip(c.code) == c.code && Strip(c.name) == c.name
    ensures NoDup(CourseListing(df))
  {
    var courses := CourseListing(df);
    var cells := CourseCells(df);
    CodePairsSpec(cells);
    forall c | c in courses ensures Strip(c.code) == c.code && Strip(c.name) == c.name {
      var n: nat :| PairAt(cells, n, (c.code, c.name));
      StripIdempotent(cells[2 * n].s);
      StripIdempotent(cells[2 * n + 1].s);
    }
    forall i, j | 0 <= i < j < |courses| ensures courses[i] != courses[j] {
      PairLtIrreflexive((courses[i].code, courses[i].name));
    }
  }

  /** The stepped loop `for i in range(0, len(courses) - 1, 2)` collecting `course_data`. */
  method CollectPairs(cells: seq<Cell>) returns (courseData: set<(string, string)>)
    ensures courseData == CodePairs(cells)
  {
    courseData := {};
    var i := 0;
    ghost var pairs := 0;
    while i < |cells| - 1
      invariant i == 2 * pairs && i <= |cells|
      invariant courseData + CodePairs(cells[i..]) == CodePairs(cells)
      decreases |cells| - i
    {
      var code, name := cells[i], cells[i + 1];
      CodePairsStep(cells, i);
      if code.Str? && name.Str? {
        courseData := courseData + {(Strip(code.s), Strip(name.s))};
      }
      i, pairs := i + 2, pairs + 1;
    }
    assert |cells[i..]| < 2;
  }

  /**
   * `get_courses_with_codes`: pair up the flattened course cells two by two,
   * keep the pairs of strings, and list the distinct stripped pairs in order.
   */
  method CoursesWithCodes(df: Frame) returns (courses: seq<Course>)
    ensures courses == CourseListing(df)
  {
    var cells := CourseCells(df);
    var courseData := CollectPairs(cells);
    var sorted := SortedListing(courseData);
    courses := AsCourses(sorted);
  }

  // ---------------------------------------------------------------------------
  // filter_datesheet

  /** A row of `extracted_df`: `[Day, Date, Time Slot, Course Code, Course Name]`. */
  datatype Extracted = Extracted(day: Cell, date: Cell, timeSlot: string, courseCode: string, courseName: Cell)

  /** `{course.strip().upper() for course in course_list}`. */
  function Normalized(courseList: seq<string>): set<string> {
    set k | 0 <= k < |courseList| :: Upper(Strip(courseList[k]))
  }

  /** Column `i` of `row` is the code column of a pair the scan reaches and holds a string. */
  predicate CodeColumn(row: seq<Cell>, i: nat) {
    2 <= i && i % 2 == 0 && i + 1 < |row| && row[i].Str?
  }

  /** The record the scan takes from the pair at columns `i`, `i + 1`. */
  function Take(columns: seq<string>, row: seq<Cell>, date: Cell, i: nat): Extracted
    requires i + 1 < |row| == |columns| && row[i].Str?
  {
    Extracted(row[0], date, columns[i + 1], Upper(Strip(row[i].s)), row[i + 1])
  }

  /** The records the scan `for i in range(2, len(row), 2)` takes from `row`, from column `i` on. */
  function RowRecords(columns: seq<string>, row: seq<Cell>, date: Cell, i: nat): seq<Extracted>
    requires |row| == |columns|
    decreases |row| - i
  {
    if i + 1 >= |row| then []
    else (if row[i].Str? then [Take(columns, row, date, i)] else []) + RowRecords(columns, row, date, i + 2)
  }

  /** The reachable code columns of `row` from column `i` on that hold a string, left to right. */
  function RecordColumns(row: seq<Cell>, i: nat): (cols: seq<nat>)
    requires 2 <= i && i % 2 == 0
    ensures forall t :: 0 <= t < |cols| ==> i <= cols[t] && CodeColumn(row, cols[t])
    ensures forall s, t :: 0 <= s < t < |cols| ==> cols[s] < cols[t]
    ensures forall j :: i <= j && CodeColumn(row, j) ==> j in cols
    decreases |row| - i
  {
    if i + 1 >= |row| then []
    else
      var rest := RecordColumns(row, i + 2);
      assert forall j :: i <= j && CodeColumn(row, j) ==> j == i || i + 2 <= j;
      (if row[i].Str? then [i] else []) + rest
  }

  /** From column `i` on, the scan's records are those of the reachable code columns holding a string. */
  lemma {:induction false} RowRecordsMembers(columns: seq<string>, row: seq<Cell>, date: Cell, i: nat)
    requires |row| == |columns| && 2 <= i && i % 2 == 0
    ensures forall e :: e in RowRecords(columns, row, date, i) <==>
      exists j :: i <= j && CodeColumn(row, j) && e == Take(columns, row, date, j)
    decreases |row| - i
  {
    if i + 1 < |row| {
      RowRecordsMembers(columns, row, date, i + 2);
      assert forall j :: i <= j && CodeColumn(row, j) ==> j == i || i + 2 <= j;
    }
  }

  /** From column `i` on, record `t` of the scan is taken from the `t`-th entry of `RecordColumns`. */
  lemma {:induction false} RowRecordsColumns(columns: seq<string>, row: seq<Cell>, date: Cell, i: nat)
    requires |row| == |columns| && 2 <= i && i % 2 == 0
    ensures |RowRecords(columns, row, date, i)| == |RecordColumns(row, i)|
    ensures forall t :: 0 <= t < |RecordColumns(row, i)| ==>
      RowRecords(columns, row, date, i)[t] == Take(columns, row, date, RecordColumns(row, i)[t])
    decreases |row| - i
  {
    if i + 1 < |row| {
      RowRecordsColumns(columns, row, date, i + 2);
      var recs, cols := RowRecords(columns, row, date, i), RecordColumns(row, i);
      var recs', cols' := RowRecords(columns, row, date, i + 2), RecordColumns(row, i + 2);
      if row[i].Str? {
        assert recs == [Take(columns, row, date, i)] + recs' && cols == [i] + cols';
        forall t | 0 <= t < |cols| ensures recs[t] == Take(columns, row, date, cols[t]) {
          if t > 0 {
            assert recs[t] == recs'[t - 1] && cols[t] == cols'[t - 1];
          }
        }
      } else {
        assert recs == recs' && cols == cols';
      }
    } else {
      assert RecordColumns(row, i) == [];
    }
  }

  /**
   * From column `i` on, the scan takes exactly one record per reachable code
   * column holding a string, left to right: record `t` is taken from the
   * `t`-th such column.
   */
  lemma RowRecordsSpec(columns: seq<string>, row: seq<Cell>, date: Cell, i: nat)
    requires |row| == |columns| && 2 <= i && i % 2 == 0
    ensures forall e :: e in RowRecords(columns, row, date, i) <==>
      exists j :: i <= j && CodeColumn(row, j) && e == Take(columns, row, date, j)
    ensures |RowRecords(columns, row, date, i)| == |RecordColumns(row, i)|
    ensures forall t :: 0 <= t < |RecordColumns(row, i)| ==>
      RowRecords(columns, row, date, i)[t] == Take(columns, row, date, RecordColumns(row, i)[t])
  {
    RowRecordsMembers(columns, row, date, i);
    RowRecordsColumns(columns, row, date, i);
  }

  /** `extracted_data` after the row loop over `rows`, Date cells passed through `normalizeDate`. */
  function Extract(columns: seq<string>, rows: seq<seq<Cell>>, normalizeDate: Cell -> Cell): seq<Extracted>
    requires |columns| >= 2 && forall k :: 0 <= k < |rows| ==> |rows[k]| == |columns|
    decreases |rows|
  {
    if rows == [] then []
    else
      var n := |rows| - 1;
      Extract(columns, rows[..n], normalizeDate) + RowRecords(columns, rows[n], normalizeDate(rows[n][1]), 2)
  }

  /** Row `k` of `rows` yields `e` from its code column `i`. */
  predicate Yields(columns: seq<string>, rows: seq<seq<Cell>>, normalizeDate: Cell -> Cell, k: nat, i: nat, e: Extracted)
    requires forall k :: 0 <= k < |rows| ==> |rows[k]| == |columns|
  {
    k < |rows| && CodeColumn(rows[k], i) && e == Take(columns, rows[k], normalizeDate(rows[k][1]), i)
  }

  /** The extracted records are exactly the records of every row's reachable string code cells. */
  lemma {:induction false} ExtractSpec(columns: seq<string>, rows: seq<seq<Cell>>, normalizeDate: Cell -> Cell)
    requires |columns| >= 2 && forall k :: 0 <= k < |rows| ==> |rows[k]| == |columns|
    ensures forall e :: e in Extract(columns, rows, normalizeDate) <==>
      exists k: nat, i: nat :: Yields(columns, rows, normalizeDate, k, i, e)
    decreases |rows|
  {
    if rows != [] {
      var n := |rows| - 1;
      var prefix := rows[..n];
      ExtractSpec(columns, prefix, normalizeDate);
      RowRecordsSpec(columns, rows[n], normalizeDate(rows[n][1]), 2);
      var last := RowRecords(columns, rows[n], normalizeDate(rows[n][1]), 2);
      assert Extract(columns, rows, normalizeDate) == Extract(columns, prefix, normalizeDate) + last;
      forall e ensures e in Extract(columns, rows, normalizeDate) <==> exists k: nat, i: nat :: Yields(columns, rows, normalizeDate, k, i, e) {
        if exists k: nat, i: nat :: Yields(columns, rows, normalizeDate, k, i, e) {
          var k: nat, i: nat :| Yields(columns, rows, normalizeDate, k, i, e);
          if k < n {
            assert prefix[k] == rows[k];
            assert Yields(columns, prefix, normalizeDate, k, i, e);
          } else {
            assert k == n;
            assert 2 <= i && CodeColumn(rows[n], i) && e == Take(columns, rows[n], normalizeDate(rows[n][1]), i);
          }
        }
        if e in Extract(columns, prefix, normalizeDate) {
          var k: nat, i: nat :| Yields(columns, prefix, normalizeDate, k, i, e);
          assert prefix[k] == rows[k];
          assert Yields(columns, rows, normalizeDate, k, i, e);
        }
        if e in last {
          var i: nat :| 2 <= i && CodeColumn(rows[n], i) && e == Take(columns, rows[n], normalizeDate(rows[n][1]), i);
          assert Yields(columns, rows, normalizeDate, n, i, e);
        }
      }
    }
  }

  /** Rows come out in order: the records of `rows[..k]` precede those of `rows[k..]`. */
  lemma {:induction false} ExtractSplit(columns: seq<string>, rows: seq<seq<Cell>>, normalizeDate: Cell -> Cell, k: nat)
    requires |columns| >= 2 && forall k :: 0 <= k < |rows| ==> |rows[k]| == |columns|
    requires k <= |rows|
    ensures Extract(columns, rows, normalizeDate) ==
            Extract(columns, rows[..k], normalizeDate) + Extract(columns, rows[k..], normalizeDate)
    decreases |rows|
  {
    if k < |rows| {
      var n := |rows| - 1;
      assert rows[..n][..k] == rows[..k];
      ExtractSplit(columns, rows[..n], normalizeDate, k);
      assert rows[..n][k..] == rows[k..][..|rows[k..]| - 1];
      assert rows[k..][|rows[k..]| - 1] == rows[n];
    } else {
      assert rows[..k] == rows;
      assert rows[k..] == [];
    }
  }

  /** `extracted_df[extracted_df["Course Code"].isin(normalized_courses)]`. */
  function KeepRequested(records: seq<Extracted>, normalized: set<string>): (r: seq<Extracted>)
    ensures forall e :: e in r <==> e in records && e.courseCode in normalized
    ensures forall e :: multiset(r)[e] == if e.courseCode in normalized then multiset(records)[e] else 0
    ensures IsSubsequence(r, records)
  {
    FilterSpec(records, (e: Extracted) => e.courseCode in normalized);
    FilterIsSubsequence(records, (e: Extracted) => e.courseCode in normalized);
    Filter(records, (e: Extracted) => e.courseCode in normalized)
  }

  /** The function `filter_datesheet` computes; unpacking Day and Date fails on a frame with rows but fewer than two columns. */
  function FilterSheet(df: Frame, courseList: seq<string>, normalizeDate: Cell -> Cell): (r: Option<seq<Extracted>>)
    requires WellFormed(df)
    ensures r.None? <==> df.rows != [] && |df.columns| < 2
    ensures r.Some? ==> forall e :: e in r.value ==> e.courseCode in Normalized(courseList)
  {
    if |df.columns| < 2 then
      if df.rows != [] then None else Some([])
    else
      var normalized := Normalized(courseList);
      Some(KeepRequested(Extract(df.columns, df.rows, normalizeDate), normalized))
  }

  /**
   * `filter_datesheet` returns exactly the records of reachable string code
   * cells whose normalised code was asked for, each as often as it was
   * extracted, in row order and, within a row, left to right.
   */
  lemma FilterSheetSpec(df: Frame, courseList: seq<string>, normalizeDate: Cell -> Cell)
    requires WellFormed(df) && |df.columns| >= 2
    ensures FilterSheet(df, courseList, normalizeDate).Some?
    ensures forall e :: e in FilterSheet(df, courseList, normalizeDate).value <==>
      (exists k: nat, i: nat :: Yields(df.columns, df.rows, normalizeDate, k, i, e)) && e.courseCode in Normalized(courseList)
    ensures forall e ::
      multiset(FilterSheet(df, courseList, normalizeDate).value)[e] ==
      if e.courseCode in Normalized(courseList) then multiset(Extract(df.columns, df.rows, normalizeDate))[e] else 0
    ensures IsSubsequence(FilterSheet(df, courseList, normalizeDate).value, Extract(df.columns, df.rows, normalizeDate))
  {
    ExtractSpec(df.columns, df.rows, normalizeDate);
  }

  /** One step of the column scan: the record of the pair at `i`, if any, and then the rest. */
  lemma RowRecordsStep(columns: seq<string>, row: seq<Cell>, date: Cell, i: nat, records: seq<Extracted>)
    requires |row| == |columns| && i + 1 < |row|
    ensures row[i].Str? ==>
      (records + RowRecords(columns, row, date, i) ==
       (records + [Extracted(row[0], date, columns[i + 1], Upper(Strip(row[i].s)), row[i + 1])]) + RowRecords(columns, row, date, i + 2))
    ensures !row[i].Str? ==> records + RowRecords(columns, row, date, i) == records + RowRecords(columns, row, date, i + 2)
  {
    var here := if row[i].Str? then [Take(columns, row, date, i)] else [];
    assert records + (here + RowRecords(columns, row, date, i + 2)) == (records + here) + RowRecords(columns, row, date, i + 2);
  }

  /**
   * The body of `for _, row in df.iterrows()` after Day and Date are read:
   * `for i in range(2, len(row), 2)` with its `break`, one record per pair
   * whose code cell is a string.
   */
  method ScanRow(columns: seq<string>, row: seq<Cell>, date: Cell) returns (records: seq<Extracted>)
    requires |row| == |columns| >= 2
    ensures records == RowRecords(columns, row, date, 2)
  {
    var day := row[0];
    records := [];
    var i := 2;
    while i < |row|
      invariant records + RowRecords(columns, row, date, i) == RowRecords(columns, row, date, 2)
      decreases |row| - i
    {
      if i + 1 >= |row| {
        break;
      }
      var courseCode, courseName := row[i], row[i + 1];
      var timeSlot := columns[i + 1];
      RowRecordsStep(columns, row, date, i, records);
      if courseCode.Str? {
        records := records + [Extracted(day, date, timeSlot, Upper(Strip(courseCode.s)), courseName)];
      }
      i := i + 2;
    }
  }

  /**
   * `filter_datesheet`: scan every row pair by pair from column 2, take a
   * record for each pair whose code cell is a string, then keep the records
   * whose normalised code was asked for. `normalizeDate` stands for the
   * `pd.to_datetime(...).strftime` conversion and its fallback.
   */
  method FilterDatesheet(df: Frame, courseList: seq<string>, normalizeDate: Cell -> Cell)
    returns (r: Option<seq<Extracted>>)
    requires WellFormed(df)
    ensures r == FilterSheet(df, courseList, normalizeDate)
  {
    var normalized := Normalized(courseList);
    if |df.columns| < 2 {
      // `day, date = row.iloc[:2]` fails on the first row; with no rows nothing is extracted
      return if |df.rows| > 0 then None else Some([]);
    }
    var extracted: seq<Extracted> := [];
    for k := 0 to |df.rows|
      invariant extracted == Extract(df.columns, df.rows[..k], normalizeDate)
    {
      var row := df.rows[k];
      var date := normalizeDate(row[1]);
      var records := ScanRow(df.columns, row, date);
      assert df.rows[..k + 1][..k] == df.rows[..k];
      extracted := extracted + records;
    }
    assert df.rows[..|df.rows|] == df.rows;
    r := Some(KeepRequested(extracted, normalized));
  }

  // ---------------------------------------------------------------------------
  // extract_time_slots

  /** A header names a time slot when it contains `" - "`. */
  predicate IsSlotHeader(col: string) {
    Contains(col, " - ")
  }

  /** `df.columns[2:]`. */
  function Drop2(columns: seq<string>): seq<string> {
    if |columns| >= 2 then columns[2..] else []
  }

  /** The headers after Day and Date are those at indices 2 and above. */
  lemma Drop2Members(columns: seq<string>)
    ensures forall x :: x in Drop2(columns) <==> exists k :: 2 <= k < |columns| && columns[k] == x
  {
    forall x | x in Drop2(columns) ensures exists k :: 2 <= k < |columns| && columns[k] == x {
      var j :| 0 <= j < |Drop2(columns)| && Drop2(columns)[j] == x;
      assert columns[j + 2] == x;
    }
  }

  /** Sorting a list keeps its elements. */
  lemma SortedMembers(xs: seq<string>)
    ensures forall x :: x in SortStrings(xs) <==> x in xs
  {
    forall x ensures x in SortStrings(xs) <==> x in xs {
      assert x in SortStrings(xs) <==> x in multiset(SortStrings(xs));
    }
  }

  /** What `extract_time_slots` returns: the slot headers after Day and Date, sorted. */
  function TimeSlots(columns: seq<string>): (slots: seq<string>)
    ensures SortedStrings(slots)
    ensures forall x :: multiset(slots)[x] == if IsSlotHeader(x) then multiset(Drop2(columns))[x] else 0
    ensures forall x :: x in slots <==> exists k :: 2 <= k < |columns| && columns[k] == x && IsSlotHeader(x)
  {
    var kept := Filter(Drop2(columns), IsSlotHeader);
    FilterSpec(Drop2(columns), IsSlotHeader);
    SortedMembers(kept);
    Drop2Members(columns);
    SortStrings(kept)
  }

  /** `extract_time_slots`: collect the headers from index 2 that contain `" - "`, then `sort()` them. */
  method ExtractTimeSlots(columns: seq<string>) returns (timeSlots: seq<string>)
    ensures timeSlots == TimeSlots(columns)
  {
    timeSlots := [];
    var k := 2;
    while k < |columns|
      invariant 2 <= k && (|columns| >= 2 ==> k <= |columns|)
      invariant timeSlots == Filter(if |columns| >= 2 then columns[2..k] else [], IsSlotHeader)
      decreases |columns| - k
    {
      var col := columns[k];
      assert columns[2..k + 1] == columns[2..k] + [col];
      FilterSnoc(columns[2..k], col, IsSlotHeader);
      if IsSlotHeader(col) {
        timeSlots := timeSlots + [col];
      }
      k := k + 1;
    }
    if |columns| >= 2 {
      assert columns[2..k] == Drop2(columns);
    }
    timeSlots := SortStrings(timeSlots);
  }
}
