/**
 * What frontend/src/GridTableView.jsx computes, as functions of its inputs
 * (`dataSheet`, `timeSlots` and the stream of `Math.random()` values), and the
 * properties of the resulting table: first-seen day order, one colour per
 * course fixed at its first occurrence, the number of physical rows per day,
 * row shape and labels, and that every record lands in exactly one cell.
 *
 * A physical row is described by a `PhysicalRow` whose cells hold the index
 * of the record they show (or nothing); `Render` and `Paint` turn it into the
 * strings and colours the table is given.
 */
module GridSpec {
  import opened Wrappers
  import opened Schedule
  import opened Sequences

  // ---------------------------------------------------------------------------
  // getRandomColor

  /** `Math.random()`: the n-th call returns `random(n)`, a number in [0, 1). */
  ghost predicate UnitOracle(random: nat -> real) {
    forall n :: 0.0 <= random(n) < 1.0
  }

  /** The band `getRandomColor` draws from: hue 0-359, saturation 70-99%, lightness 80-99%. */
  predicate InRandomBand(c: Color) {
    c.Hsl? && 0 <= c.hue <= 359 && 70 <= c.saturation <= 99 && 80 <= c.lightness <= 99
  }

  /** The colour of the n-th call to `getRandomColor`, which consumes three draws. */
  function RandomColor(random: nat -> real, n: nat): (c: Color)
    requires UnitOracle(random)
    ensures InRandomBand(c)
  {
    var h, s, l := random(3 * n), random(3 * n + 1), random(3 * n + 2);
    Hsl((h * 360.0).Floor, (s * 30.0).Floor + 70, (l * 20.0).Floor + 80)
  }

  // ---------------------------------------------------------------------------
  // days and courseColors

  function DayColumn(data: seq<Record>): (r: seq<string>)
    ensures |r| == |data| && forall i :: 0 <= i < |data| ==> r[i] == data[i].day
  {
    seq(|data|, i requires 0 <= i < |data| => data[i].day)
  }

  /** `[...new Set(dataSheet.map((item) => item.Day))]`. */
  function Days(data: seq<Record>): seq<string> {
    Dedup(DayColumn(data))
  }

  /** `days` lists every day of the input once, in order of first occurrence. */
  lemma DaysSpec(data: seq<Record>)
    ensures NoDup(Days(data))
    ensures forall d :: d in Days(data) <==> d in DayColumn(data)
    ensures forall k :: 0 <= k < |data| ==> data[k].day in Days(data)
    ensures forall i, j :: 0 <= i < j < |Days(data)| ==>
      IndexOf(DayColumn(data), Days(data)[i]) < IndexOf(DayColumn(data), Days(data)[j])
  {
    DedupSpec(DayColumn(data));
    assert forall k :: 0 <= k < |data| ==> DayColumn(data)[k] in DayColumn(data);
  }

  function Keys(data: seq<Record>): (r: seq<string>)
    ensures |r| == |data| && forall i :: 0 <= i < |data| ==> r[i] == CourseKey(data[i])
  {
    seq(|data|, i requires 0 <= i < |data| => CourseKey(data[i]))
  }

  /**
   * `courseColors` after the `forEach` over `data`: a key met for the first
   * time gets the next random colour, a key met again keeps its colour.
   */
  function CourseColors(data: seq<Record>, random: nat -> real): map<string, Color>
    requires UnitOracle(random)
    decreases |data|
  {
    if data == [] then map[]
    else
      var prefix := data[..|data| - 1];
      var colors := CourseColors(prefix, random);
      var key := CourseKey(data[|data| - 1]);
      if key in colors then colors else colors[key := RandomColor(random, |Dedup(Keys(prefix))|)]
  }

  /** The keys of `courseColors` are the course keys of the input. */
  lemma {:induction false} CourseColorsDomain(data: seq<Record>, random: nat -> real)
    requires UnitOracle(random)
    ensures forall key :: key in CourseColors(data, random) <==> key in Keys(data)
    decreases |data|
  {
    if data != [] {
      var prefix := data[..|data| - 1];
      CourseColorsDomain(prefix, random);
      assert Keys(data) == Keys(prefix) + [CourseKey(data[|data| - 1])];
    }
  }

  /** Every colour of `courseColors` lies in `getRandomColor`'s band. */
  lemma {:induction false} CourseColorsBand(data: seq<Record>, random: nat -> real)
    requires UnitOracle(random)
    ensures forall key :: key in CourseColors(data, random) ==> InRandomBand(CourseColors(data, random)[key])
    decreases |data|
  {
    if data != [] {
      CourseColorsBand(data[..|data| - 1], random);
    }
  }

  /** The i-th distinct key, in order of first occurrence, holds the i-th colour drawn. */
  lemma {:induction false} CourseColorsOrder(data: seq<Record>, random: nat -> real)
    requires UnitOracle(random)
    ensures forall i :: 0 <= i < |Dedup(Keys(data))| ==>
      Dedup(Keys(data))[i] in CourseColors(data, random) &&
      CourseColors(data, random)[Dedup(Keys(data))[i]] == RandomColor(random, i)
    decreases |data|
  {
    if data != [] {
      var prefix := data[..|data| - 1];
      var key := CourseKey(data[|data| - 1]);
      CourseColorsOrder(prefix, random);
      CourseColorsDomain(prefix, random);
      var colors, before := CourseColors(prefix, random), Keys(prefix);
      var d := Dedup(before);
      assert Keys(data) == before + [key];
      DedupSnoc(before, key);
      DedupMembers(before);
      if key in colors {
        assert key in d;
        assert Dedup(Keys(data)) == d;
        assert CourseColors(data, random) == colors;
      } else {
        var after := colors[key := RandomColor(random, |d|)];
        assert key !in d;
        assert Dedup(Keys(data)) == d + [key];
        assert CourseColors(data, random) == after;
        forall i | 0 <= i < |d| + 1 ensures (d + [key])[i] in after && after[(d + [key])[i]] == RandomColor(random, i) {
          if i < |d| {
            assert (d + [key])[i] == d[i] && d[i] in d;
          }
        }
      }
    }
  }

  /**
   * `courseColors` has one entry per distinct course key; the i-th distinct
   * key (in order of first occurrence) holds the i-th colour drawn, and every
   * colour lies in `getRandomColor`'s band.
   */
  lemma CourseColorsSpec(data: seq<Record>, random: nat -> real)
    requires UnitOracle(random)
    ensures forall key :: key in CourseColors(data, random) <==> key in Keys(data)
    ensures forall i :: 0 <= i < |Dedup(Keys(data))| ==>
      Dedup(Keys(data))[i] in CourseColors(data, random) &&
      CourseColors(data, random)[Dedup(Keys(data))[i]] == RandomColor(random, i)
    ensures forall key :: key in CourseColors(data, random) ==> InRandomBand(CourseColors(data, random)[key])
  {
    CourseColorsDomain(data, random);
    CourseColorsOrder(data, random);
    CourseColorsBand(data, random);
  }

  /** `courseColors` has an entry for every record's key. */
  ghost predicate ColorsCover(data: seq<Record>, colors: map<string, Color>) {
    forall k :: 0 <= k < |data| ==> CourseKey(data[k]) in colors
  }

  lemma CourseColorsCover(data: seq<Record>, random: nat -> real)
    requires UnitOracle(random)
    ensures ColorsCover(data, CourseColors(data, random))
  {
    CourseColorsSpec(data, random);
    assert forall k :: 0 <= k < |data| ==> Keys(data)[k] in Keys(data);
  }

  // ---------------------------------------------------------------------------
  // One day: rowCourses, maxCourses and the physical rows

  /** `dataSheet.find((item) => item.Day === day)?.Date || ""`. */
  function DateOf(data: seq<Record>, day: string): (date: string)
    ensures (forall k :: 0 <= k < |data| ==> data[k].day != day) ==> date == ""
    ensures day in DayColumn(data) ==> date == data[IndexOf(DayColumn(data), day)].date
    decreases |data|
  {
    if data == [] then ""
    else if data[0].day == day then data[0].date
    else
      assert DayColumn(data) == [data[0].day] + DayColumn(data[1..]);
      DateOf(data[1..], day)
  }

  /**
   * The indices of the records on `day` in `slot`, in input order:
   * `dataSheet.filter((item) => item.Day === day && item["Time Slot"] === slot)`.
   */
  function Matching(data: seq<Record>, day: string, slot: string): (m: seq<nat>)
    ensures forall t :: 0 <= t < |m| ==> m[t] < |data| && data[m[t]].day == day && data[m[t]].timeSlot == slot
    ensures forall k :: 0 <= k < |data| && data[k].day == day && data[k].timeSlot == slot ==> k in m
    ensures forall t, u :: 0 <= t < u < |m| ==> m[t] < m[u]
    decreases |data|
  {
    if data == [] then []
    else
      var m := Matching(data[..|data| - 1], day, slot);
      var last := data[|data| - 1];
      if last.day == day && last.timeSlot == slot then m + [|data| - 1] else m
  }

  /** `rowCourses[slot]`: the matching records, or `[null]` when there are none. */
  function SlotEntries(data: seq<Record>, day: string, slot: string): seq<Option<nat>> {
    var m := Matching(data, day, slot);
    if |m| > 0 then seq(|m|, t requires 0 <= t < |m| => Some(m[t])) else [None]
  }

  /** A slot's entry list is its matching records, or one empty entry when there are none. */
  lemma SlotEntriesSize(data: seq<Record>, day: string, slot: string)
    ensures |SlotEntries(data, day, slot)| == if |Matching(data, day, slot)| > 0 then |Matching(data, day, slot)| else 1
  {
  }

  /** `rowCourses[slot][i] || ""`: what row `i` of the day shows under `slot`. */
  function CellAt(data: seq<Record>, day: string, slot: string, i: nat): Option<nat> {
    var entries := SlotEntries(data, day, slot);
    if i < |entries| then entries[i] else None
  }

  /** Row `i` under `slot` shows the i-th matching record, if there is one. */
  lemma CellAtSpec(data: seq<Record>, day: string, slot: string, i: nat)
    ensures var m := Matching(data, day, slot);
      CellAt(data, day, slot, i) == if i < |m| then Some(m[i]) else None
  {
  }

  /**
   * `Math.max(...Object.values(rowCourses).map((c) => c.length))`, where an
   * empty `timeSlots` gives `Math.max()`, that is -Infinity, so that the
   * `for (let i = 0; i < maxCourses; i++)` loop runs zero times.
   */
  function RowCount(data: seq<Record>, day: string, slots: seq<string>): nat
    decreases |slots|
  {
    if slots == [] then 0
    else
      var here := |SlotEntries(data, day, slots[0])|;
      var rest := RowCount(data, day, slots[1..]);
      if here >= rest then here else rest
  }

  /** Taking one more slot into the maximum: the running maximum of the `Math.max` spread. */
  lemma {:induction false} RowCountSnoc(data: seq<Record>, day: string, slots: seq<string>, slot: string)
    ensures var n, here := RowCount(data, day, slots), |SlotEntries(data, day, slot)|;
      RowCount(data, day, slots + [slot]) == if here >= n then here else n
    decreases |slots|
  {
    if slots == [] {
      assert ([] + [slot])[1..] == [];
    } else {
      assert (slots + [slot])[1..] == slots[1..] + [slot];
      RowCountSnoc(data, day, slots[1..], slot);
    }
  }

  /** The number of physical rows of a day: the height of its busiest slot (at least 1), or 0 without slots. */
  lemma {:induction false} RowCountSpec(data: seq<Record>, day: string, slots: seq<string>)
    ensures slots == [] <==> RowCount(data, day, slots) == 0
    ensures forall j :: 0 <= j < |slots| ==> |Matching(data, day, slots[j])| <= RowCount(data, day, slots)
    ensures slots != [] ==>
      (exists j :: 0 <= j < |slots| && RowCount(data, day, slots) == |SlotEntries(data, day, slots[j])|)
    ensures forall j :: 0 <= j < |slots| ==>
      RowCount(data, day, slots) >= |SlotEntries(data, day, slots[j])| >= 1
    decreases |slots|
  {
    if slots != [] {
      var rest := slots[1..];
      RowCountSpec(data, day, rest);
      var n := RowCount(data, day, slots);
      forall j | 0 <= j < |slots|
        ensures |Matching(data, day, slots[j])| <= n && n >= |SlotEntries(data, day, slots[j])| >= 1
      {
        SlotEntriesSize(data, day, slots[j]);
        if j > 0 {
          assert slots[j] == rest[j - 1];
        }
      }
      if |SlotEntries(data, day, slots[0])| < RowCount(data, day, rest) {
        var j :| 0 <= j < |rest| && RowCount(data, day, rest) == |SlotEntries(data, day, rest[j])|;
        assert rest[j] == slots[j + 1];
      }
    }
  }

  /** One physical row of the table: whose day it belongs to, its index within the day and its cells. */
  datatype PhysicalRow = PhysicalRow(day: string, offset: nat, cells: seq<Option<nat>>)

  /** The slots of row `i` of `day`, left to right. */
  function RowCells(data: seq<Record>, slots: seq<string>, day: string, i: nat): (cells: seq<Option<nat>>)
    ensures |cells| == |slots| && forall j :: 0 <= j < |slots| ==> cells[j] == CellAt(data, day, slots[j], i)
  {
    seq(|slots|, j requires 0 <= j < |slots| => CellAt(data, day, slots[j], i))
  }

  /** The physical rows one iteration of `days.forEach` emits. */
  function DayRows(data: seq<Record>, slots: seq<string>, day: string): (rows: seq<PhysicalRow>)
    ensures |rows| == RowCount(data, day, slots)
    ensures forall i :: 0 <= i < |rows| ==> rows[i] == PhysicalRow(day, i, RowCells(data, slots, day, i))
  {
    seq(RowCount(data, day, slots), i requires 0 <= i < RowCount(data, day, slots) =>
      PhysicalRow(day, i, RowCells(data, slots, day, i)))
  }

  /** The rows of the given days, concatenated in order. */
  function LayoutOf(data: seq<Record>, slots: seq<string>, days: seq<string>): seq<PhysicalRow>
    decreases |days|
  {
    if days == [] then []
    else LayoutOf(data, slots, days[..|days| - 1]) + DayRows(data, slots, days[|days| - 1])
  }

  /** All physical rows of the grid, day by day in `days` order. */
  function Layout(data: seq<Record>, slots: seq<string>): seq<PhysicalRow> {
    LayoutOf(data, slots, Days(data))
  }

  /** Every physical row has one cell per slot, and every cell names an existing record. */
  ghost predicate WellFormedRow(data: seq<Record>, slots: seq<string>, row: PhysicalRow) {
    |row.cells| == |slots| &&
    forall j :: 0 <= j < |row.cells| && row.cells[j].Some? ==> row.cells[j].value < |data|
  }

  lemma {:induction false} LayoutOfWellFormed(data: seq<Record>, slots: seq<string>, days: seq<string>)
    ensures forall r :: 0 <= r < |LayoutOf(data, slots, days)| ==>
      WellFormedRow(data, slots, LayoutOf(data, slots, days)[r])
    decreases |days|
  {
    if days != [] {
      LayoutOfWellFormed(data, slots, days[..|days| - 1]);
      var day := days[|days| - 1];
      forall i, j | 0 <= i < RowCount(data, day, slots) && 0 <= j < |slots|
        ensures CellAt(data, day, slots[j], i).Some? ==> CellAt(data, day, slots[j], i).value < |data|
      {
        CellAtSpec(data, day, slots[j], i);
      }
    }
  }

  // ---------------------------------------------------------------------------
  // tableData and cellColors

  /** What a cell shows: the course key of its record, or `""`. */
  function CellText(data: seq<Record>, cell: Option<nat>): string {
    match cell
    case None => ""
    case Some(k) => if k < |data| then CourseKey(data[k]) else ""
  }

  /** `courseKey ? courseColors[courseKey] : "white"`. */
  function CellColor(data: seq<Record>, colors: map<string, Color>, cell: Option<nat>): Color {
    var key := CellText(data, cell);
    if key != "" && key in colors then colors[key] else White
  }

  /** A row of `tableData`: Day and Date on a day's first row only, then one key per slot. */
  function Render(data: seq<Record>, row: PhysicalRow): (text: seq<string>)
    ensures |text| == |row.cells| + 2
  {
    [if row.offset == 0 then row.day else "", if row.offset == 0 then DateOf(data, row.day) else ""]
    + seq(|row.cells|, j requires 0 <= j < |row.cells| => CellText(data, row.cells[j]))
  }

  /** A row of `cellColors`: white for Day and Date, then one colour per slot. */
  function Paint(data: seq<Record>, colors: map<string, Color>, row: PhysicalRow): (fill: seq<Color>)
    ensures |fill| == |row.cells| + 2
  {
    [White, White] + seq(|row.cells|, j requires 0 <= j < |row.cells| => CellColor(data, colors, row.cells[j]))
  }

  function RenderRows(data: seq<Record>, rows: seq<PhysicalRow>): (text: seq<seq<string>>)
    ensures |text| == |rows| && forall r :: 0 <= r < |rows| ==> text[r] == Render(data, rows[r])
  {
    seq(|rows|, r requires 0 <= r < |rows| => Render(data, rows[r]))
  }

  function PaintRows(data: seq<Record>, colors: map<string, Color>, rows: seq<PhysicalRow>): (fill: seq<seq<Color>>)
    ensures |fill| == |rows| && forall r :: 0 <= r < |rows| ==> fill[r] == Paint(data, colors, rows[r])
  {
    seq(|rows|, r requires 0 <= r < |rows| => Paint(data, colors, rows[r]))
  }

  lemma RenderRowsAppend(data: seq<Record>, a: seq<PhysicalRow>, b: seq<PhysicalRow>)
    ensures RenderRows(data, a + b) == RenderRows(data, a) + RenderRows(data, b)
  {
  }

  lemma PaintRowsAppend(data: seq<Record>, colors: map<string, Color>, a: seq<PhysicalRow>, b: seq<PhysicalRow>)
    ensures PaintRows(data, colors, a + b) == PaintRows(data, colors, a) + PaintRows(data, colors, b)
  {
  }

  /** `tableData`. */
  function TableData(data: seq<Record>, slots: seq<string>): seq<seq<string>> {
    RenderRows(data, Layout(data, slots))
  }

  /** `cellColors`. */
  function CellColors(data: seq<Record>, slots: seq<string>, colors: map<string, Color>): seq<seq<Color>> {
    PaintRows(data, colors, Layout(data, slots))
  }

  /** The slot cell `j` of a rendered row and its colour. */
  lemma SlotCell(data: seq<Record>, colors: map<string, Color>, row: PhysicalRow, j: nat)
    requires ColorsCover(data, colors) && j < |row.cells|
    requires row.cells[j].Some? ==> row.cells[j].value < |data|
    ensures Render(data, row)[j + 2] == CellText(data, row.cells[j])
    ensures CellText(data, row.cells[j]) == "" ==> Paint(data, colors, row)[j + 2] == White
    ensures CellText(data, row.cells[j]) != "" ==>
      CellText(data, row.cells[j]) in colors && Paint(data, colors, row)[j + 2] == colors[CellText(data, row.cells[j])]
  {
    var cell := row.cells[j];
    assert Render(data, row)[j + 2] == CellText(data, cell);
    assert Paint(data, colors, row)[j + 2] == CellColor(data, colors, cell);
  }

  /** The rendered and painted form of one well-formed physical row. */
  lemma RowShape(data: seq<Record>, slots: seq<string>, colors: map<string, Color>, row: PhysicalRow)
    requires ColorsCover(data, colors) && WellFormedRow(data, slots, row)
    ensures |Render(data, row)| == |slots| + 2 == |Paint(data, colors, row)|
    ensures Paint(data, colors, row)[0] == White && Paint(data, colors, row)[1] == White
    ensures Render(data, row)[0] == (if row.offset == 0 then row.day else "")
    ensures Render(data, row)[1] == (if row.offset == 0 then DateOf(data, row.day) else "")
    ensures forall j :: 0 <= j < |slots| ==>
      && Render(data, row)[j + 2] == CellText(data, row.cells[j])
      && (CellText(data, row.cells[j]) == "" ==> Paint(data, colors, row)[j + 2] == White)
      && (CellText(data, row.cells[j]) != "" ==>
            && CellText(data, row.cells[j]) in colors
            && Paint(data, colors, row)[j + 2] == colors[CellText(data, row.cells[j])])
  {
    forall j | 0 <= j < |slots|
      ensures && Render(data, row)[j + 2] == CellText(data, row.cells[j])
              && (CellText(data, row.cells[j]) == "" ==> Paint(data, colors, row)[j + 2] == White)
              && (CellText(data, row.cells[j]) != "" ==>
                    && CellText(data, row.cells[j]) in colors
                    && Paint(data, colors, row)[j + 2] == colors[CellText(data, row.cells[j])])
    {
      SlotCell(data, colors, row, j);
    }
  }

  /**
   * Every row of `tableData` and of `cellColors` has |timeSlots| + 2 entries;
   * the Day and Date cells are white and labelled only on a day's first row;
   * a slot cell shows its record's key and is coloured with that key's
   * `courseColors` entry, or is empty and white.
   */
  lemma TableRowShape(data: seq<Record>, slots: seq<string>, colors: map<string, Color>, r: nat)
    requires ColorsCover(data, colors)
    requires r < |TableData(data, slots)|
    ensures r < |Layout(data, slots)| && r < |CellColors(data, slots, colors)|
    ensures |TableData(data, slots)[r]| == |slots| + 2 == |CellColors(data, slots, colors)[r]|
    ensures CellColors(data, slots, colors)[r][0] == White && CellColors(data, slots, colors)[r][1] == White
    ensures TableData(data, slots)[r][0] ==
      (if Layout(data, slots)[r].offset == 0 then Layout(data, slots)[r].day else "")
    ensures TableData(data, slots)[r][1] ==
      (if Layout(data, slots)[r].offset == 0 then DateOf(data, Layout(data, slots)[r].day) else "")
    ensures forall j :: 0 <= j < |slots| ==>
      && TableData(data, slots)[r][j + 2] == CellText(data, Layout(data, slots)[r].cells[j])
      && (CellText(data, Layout(data, slots)[r].cells[j]) == "" ==> CellColors(data, slots, colors)[r][j + 2] == White)
      && (CellText(data, Layout(data, slots)[r].cells[j]) != "" ==>
            && CellText(data, Layout(data, slots)[r].cells[j]) in colors
            && CellColors(data, slots, colors)[r][j + 2] == colors[CellText(data, Layout(data, slots)[r].cells[j])])
  {
    LayoutOfWellFormed(data, slots, Days(data));
    RowsShape(data, slots, colors, Layout(data, slots), r);
  }

  lemma RowsShape(data: seq<Record>, slots: seq<string>, colors: map<string, Color>, rows: seq<PhysicalRow>, r: nat)
    requires ColorsCover(data, colors)
    requires forall r' :: 0 <= r' < |rows| ==> WellFormedRow(data, slots, rows[r'])
    requires r < |rows|
    ensures |RenderRows(data, rows)[r]| == |slots| + 2 == |PaintRows(data, colors, rows)[r]|
    ensures PaintRows(data, colors, rows)[r][0] == White && PaintRows(data, colors, rows)[r][1] == White
    ensures RenderRows(data, rows)[r][0] == (if rows[r].offset == 0 then rows[r].day else "")
    ensures RenderRows(data, rows)[r][1] == (if rows[r].offset == 0 then DateOf(data, rows[r].day) else "")
    ensures forall j :: 0 <= j < |slots| ==>
      && RenderRows(data, rows)[r][j + 2] == CellText(data, rows[r].cells[j])
      && (CellText(data, rows[r].cells[j]) == "" ==> PaintRows(data, colors, rows)[r][j + 2] == White)
      && (CellText(data, rows[r].cells[j]) != "" ==>
            && CellText(data, rows[r].cells[j]) in colors
            && PaintRows(data, colors, rows)[r][j + 2] == colors[CellText(data, rows[r].cells[j])])
  {
    RowShape(data, slots, colors, rows[r]);
  }

  /** Cells that show the same course get the same colour, wherever they are. */
  lemma SameCourseSameColor(data: seq<Record>, slots: seq<string>, colors: map<string, Color>,
                            r1: nat, c1: nat, r2: nat, c2: nat)
    requires ColorsCover(data, colors)
    requires r1 < |TableData(data, slots)| && r2 < |TableData(data, slots)|
    requires 2 <= c1 < |TableData(data, slots)[r1]| && 2 <= c2 < |TableData(data, slots)[r2]|
    requires TableData(data, slots)[r1][c1] == TableData(data, slots)[r2][c2]
    ensures CellColors(data, slots, colors)[r1][c1] == CellColors(data, slots, colors)[r2][c2]
  {
    TableRowShape(data, slots, colors, r1);
    TableRowShape(data, slots, colors, r2);
    var j1, j2 := c1 - 2, c2 - 2;
    assert j1 + 2 == c1 && j2 + 2 == c2;
  }

  // ---------------------------------------------------------------------------
  // Coverage: each record is shown in exactly one cell

  /** How many of `cells` show record `k`. */
  function CountIn(cells: seq<Option<nat>>, k: nat): nat
    decreases |cells|
  {
    if cells == [] then 0
    else CountIn(cells[..|cells| - 1], k) + (if cells[|cells| - 1] == Some(k) then 1 else 0)
  }

  /** How many cells of `rows` show record `k`. */
  function Occurrences(rows: seq<PhysicalRow>, k: nat): nat
    decreases |rows|
  {
    if rows == [] then 0
    else Occurrences(rows[..|rows| - 1], k) + CountIn(rows[|rows| - 1].cells, k)
  }

  /** If record `k` can only sit at position `j0` (when that is a position at all), it is counted once there. */
  lemma {:induction false} CountInIndicator(cells: seq<Option<nat>>, k: nat, j0: int)
    requires forall j :: 0 <= j < |cells| ==> (cells[j] == Some(k) <==> j == j0)
    ensures CountIn(cells, k) == if 0 <= j0 < |cells| then 1 else 0
    decreases |cells|
  {
    if cells != [] {
      CountInIndicator(cells[..|cells| - 1], k, j0);
    }
  }

  lemma {:induction false} OccurrencesIndicator(rows: seq<PhysicalRow>, k: nat, r0: int)
    requires forall r :: 0 <= r < |rows| ==> CountIn(rows[r].cells, k) == if r == r0 then 1 else 0
    ensures Occurrences(rows, k) == if 0 <= r0 < |rows| then 1 else 0
    decreases |rows|
  {
    if rows != [] {
      OccurrencesIndicator(rows[..|rows| - 1], k, r0);
    }
  }

  lemma {:induction false} OccurrencesAppend(a: seq<PhysicalRow>, b: seq<PhysicalRow>, k: nat)
    ensures Occurrences(a + b, k) == Occurrences(a, k) + Occurrences(b, k)
    decreases |b|
  {
    if b != [] {
      var ab := a + b;
      assert ab[..|ab| - 1] == a + b[..|b| - 1];
      assert ab[|ab| - 1] == b[|b| - 1];
      assert Occurrences(ab, k) == Occurrences(ab[..|ab| - 1], k) + CountIn(b[|b| - 1].cells, k);
      OccurrencesAppend(a, b[..|b| - 1], k);
    } else {
      assert a + b == a;
    }
  }

  /** Where record `k` can appear within the day `day`: the row of its rank among its slot's records. */
  function RankOf(data: seq<Record>, slots: seq<string>, day: string, k: nat): int
    requires k < |data|
  {
    var m := Matching(data, day, data[k].timeSlot);
    if data[k].day == day && data[k].timeSlot in slots then IndexOf(m, k) else -1
  }

  /** Row `i` of a day shows record `k` once if `i` is its rank there, else never. */
  lemma RowOccurrences(data: seq<Record>, slots: seq<string>, day: string, i: nat, k: nat)
    requires NoDup(slots) && k < |data|
    ensures CountIn(RowCells(data, slots, day, i), k) == if i == RankOf(data, slots, day, k) then 1 else 0
  {
    var cells := RowCells(data, slots, day, i);
    var slot := data[k].timeSlot;
    forall j | 0 <= j < |slots|
      ensures cells[j] == Some(k) ==> data[k].day == day && slots[j] == slot
    {
      CellAtSpec(data, day, slots[j], i);
    }
    if data[k].day == day && slot in slots {
      var j0 := IndexOf(slots, slot);
      var m := Matching(data, day, slot);
      var rank := IndexOf(m, k);
      forall j | 0 <= j < |slots| ensures cells[j] == Some(k) <==> (j == j0 && i == rank) {
        CellAtSpec(data, day, slots[j], i);
      }
      if i == rank {
        CountInIndicator(cells, k, j0);
      } else {
        CountInIndicator(cells, k, -1);
      }
    } else {
      CountInIndicator(cells, k, -1);
    }
  }

  /** Within one day's rows, record `k` shows up once if it is on that day in a listed slot, else never. */
  lemma DayOccurrences(data: seq<Record>, slots: seq<string>, day: string, k: nat)
    requires NoDup(slots) && k < |data|
    ensures Occurrences(DayRows(data, slots, day), k) ==
      if data[k].day == day && data[k].timeSlot in slots then 1 else 0
  {
    var rows := DayRows(data, slots, day);
    var rank := RankOf(data, slots, day, k);
    forall i | 0 <= i < |rows| ensures CountIn(rows[i].cells, k) == if i == rank then 1 else 0 {
      RowOccurrences(data, slots, day, i, k);
    }
    OccurrencesIndicator(rows, k, rank);
    if data[k].day == day && data[k].timeSlot in slots {
      RowCountSpec(data, day, slots);
      var j0 := IndexOf(slots, data[k].timeSlot);
      assert |Matching(data, day, slots[j0])| <= |rows|;
    }
  }

  lemma {:induction false} LayoutOfOccurrences(data: seq<Record>, slots: seq<string>, days: seq<string>, k: nat)
    requires NoDup(slots) && NoDup(days) && k < |data|
    ensures Occurrences(LayoutOf(data, slots, days), k) ==
      if data[k].day in days && data[k].timeSlot in slots then 1 else 0
    decreases |days|
  {
    if days != [] {
      var prefix, day := days[..|days| - 1], days[|days| - 1];
      assert days == prefix + [day];
      LayoutOfOccurrences(data, slots, prefix, k);
      OccurrencesAppend(LayoutOf(data, slots, prefix), DayRows(data, slots, day), k);
      DayOccurrences(data, slots, day, k);
    }
  }

  /**
   * With distinct time slots, a record whose slot is listed appears in exactly
   * one cell of the grid, and a record whose slot is not listed in none.
   */
  lemma Coverage(data: seq<Record>, slots: seq<string>, k: nat)
    requires NoDup(slots) && k < |data|
    ensures Occurrences(Layout(data, slots), k) == if data[k].timeSlot in slots then 1 else 0
  {
    DaysSpec(data);
    LayoutOfOccurrences(data, slots, Days(data), k);
  }

  // ---------------------------------------------------------------------------
  // The `reduce` transposition into Plotly's column lists

  /** `cells.values[c]`: the c-th entry of every row that has one, top to bottom. */
  function Column<T>(rows: seq<seq<T>>, c: nat): seq<T>
    decreases |rows|
  {
    if rows == [] then []
    else
      var last := rows[|rows| - 1];
      Column(rows[..|rows| - 1], c) + (if c < |last| then [last[c]] else [])
  }

  /** Column lists of a table whose rows all have `width` entries: `values[c][r] == rows[r][c]`. */
  lemma {:induction false} ColumnOfRectangle<T>(rows: seq<seq<T>>, width: nat, c: nat)
    requires forall r :: 0 <= r < |rows| ==> |rows[r]| == width
    requires c < width
    ensures |Column(rows, c)| == |rows|
    ensures forall r :: 0 <= r < |rows| ==> Column(rows, c)[r] == rows[r][c]
    decreases |rows|
  {
    if rows != [] {
      ColumnOfRectangle(rows[..|rows| - 1], width, c);
    }
  }

  function Columns<T>(rows: seq<seq<T>>, width: nat): (cols: seq<seq<T>>)
    ensures |cols| == width && forall c :: 0 <= c < width ==> cols[c] == Column(rows, c)
  {
    seq(width, c requires 0 <= c < width => Column(rows, c))
  }
}
