/**
 * The body of the `GridTableView` component (frontend/src/GridTableView.jsx),
 * step by step as the component runs it: the `forEach` that fills
 * `courseColors`, the `days.forEach` / `for` / `timeSlots.forEach` nest that
 * pushes rows onto `tableData` and `cellColors`, and the `reduce` that
 * transposes both into Plotly's column lists. Each method is proved against
 * the functions of GridSpec.
 */
module GridTableView {
  import opened Wrappers
  import opened Schedule
  import opened Sequences
  import opened GridSpec

  /** One step of the `forEach` over `data`: how `courseColors` and the number of colours drawn grow. */
  lemma ColorsStep(data: seq<Record>, idx: nat, random: nat -> real)
    requires UnitOracle(random) && idx < |data|
    ensures var before, key := CourseColors(data[..idx], random), CourseKey(data[idx]);
      && CourseColors(data[..idx + 1], random) ==
           (if key in before then before else before[key := RandomColor(random, |Dedup(Keys(data[..idx]))|)])
      && |Dedup(Keys(data[..idx + 1]))| == |Dedup(Keys(data[..idx]))| + (if key in before then 0 else 1)
  {
    var prefix, key := data[..idx], CourseKey(data[idx]);
    assert data[..idx + 1][..idx] == prefix;
    CourseColorsDomain(prefix, random);
    assert Keys(data[..idx + 1]) == Keys(prefix) + [key];
    DedupSnoc(Keys(prefix), key);
    DedupMembers(Keys(prefix));
  }

  /**
   * The `useMemo` callback: a `getRandomColor()` for each key not seen before.
   * `drawn` counts the colours drawn so far (each takes three `Math.random()` calls).
   */
  method AssignColors(data: seq<Record>, random: nat -> real) returns (colors: map<string, Color>)
    requires UnitOracle(random)
    ensures colors == CourseColors(data, random)
  {
    colors := map[];
    var drawn := 0;
    for idx := 0 to |data|
      invariant colors == CourseColors(data[..idx], random)
      invariant drawn == |Dedup(Keys(data[..idx]))|
    {
      ColorsStep(data, idx, random);
      var courseKey := CourseKey(data[idx]);
      if courseKey !in colors {
        colors := colors[courseKey := RandomColor(random, drawn)];
        drawn := drawn + 1;
      }
    }
    assert data[..|data|] == data;
  }

  /** `rowCourses`: for each slot, its matching records or `[null]`. */
  method SlotMap(data: seq<Record>, day: string, slots: seq<string>) returns (rowCourses: map<string, seq<Option<nat>>>)
    ensures forall slot :: slot in rowCourses <==> slot in slots
    ensures forall slot :: slot in rowCourses ==> rowCourses[slot] == SlotEntries(data, day, slot)
  {
    rowCourses := map[];
    for j := 0 to |slots|
      invariant forall slot :: slot in rowCourses <==> slot in slots[..j]
      invariant forall slot :: slot in rowCourses ==> rowCourses[slot] == SlotEntries(data, day, slot)
    {
      SlicePlusOne(slots, j);
      rowCourses := rowCourses[slots[j] := SlotEntries(data, day, slots[j])];
    }
    assert slots[..|slots|] == slots;
  }

  /** Rendering one more cell of a row appends that cell's text and colour. */
  lemma RenderExtend(data: seq<Record>, colors: map<string, Color>, day: string, i: nat, cells: seq<Option<nat>>, j: nat)
    requires j < |cells|
    ensures Render(data, PhysicalRow(day, i, cells[..j + 1])) ==
            Render(data, PhysicalRow(day, i, cells[..j])) + [CellText(data, cells[j])]
    ensures Paint(data, colors, PhysicalRow(day, i, cells[..j + 1])) ==
            Paint(data, colors, PhysicalRow(day, i, cells[..j])) + [CellColor(data, colors, cells[j])]
  {
    var before, after := Render(data, PhysicalRow(day, i, cells[..j])), Render(data, PhysicalRow(day, i, cells[..j + 1]));
    assert |after| == |before| + 1;
    assert forall k :: 0 <= k < |before| ==> after[k] == before[k];
    var pbefore, pafter := Paint(data, colors, PhysicalRow(day, i, cells[..j])), Paint(data, colors, PhysicalRow(day, i, cells[..j + 1]));
    assert |pafter| == |pbefore| + 1;
    assert forall k :: 0 <= k < |pbefore| ==> pafter[k] == pbefore[k];
  }

  /** The body of `timeSlots.forEach` in row `i`: the key the cell under `slot` shows, and its colour. */
  method SlotCellOf(data: seq<Record>, colors: map<string, Color>, day: string, slot: string,
                    entries: seq<Option<nat>>, i: nat)
    returns (courseKey: string, color: Color)
    requires ColorsCover(data, colors) && entries == SlotEntries(data, day, slot)
    ensures courseKey == CellText(data, CellAt(data, day, slot, i))
    ensures color == CellColor(data, colors, CellAt(data, day, slot, i))
  {
    var course := if i < |entries| then entries[i] else None;
    CellAtSpec(data, day, slot, i);
    courseKey := match course case Some(k) => CourseKey(data[k]) case None => "";
    color := if courseKey != "" then colors[courseKey] else White;
  }

  /** The body of `for (let i = 0; i < maxCourses; i++)`: physical row `i` of `day` and its colours. */
  method EmitRow(data: seq<Record>, slots: seq<string>, colors: map<string, Color>, day: string, date: string,
                 rowCourses: map<string, seq<Option<nat>>>, i: nat)
    returns (row: seq<string>, colorRow: seq<Color>)
    requires ColorsCover(data, colors) && date == DateOf(data, day)
    requires forall slot :: slot in slots ==> slot in rowCourses && rowCourses[slot] == SlotEntries(data, day, slot)
    ensures row == Render(data, PhysicalRow(day, i, RowCells(data, slots, day, i)))
    ensures colorRow == Paint(data, colors, PhysicalRow(day, i, RowCells(data, slots, day, i)))
  {
    ghost var cells := RowCells(data, slots, day, i);
    row := [if i == 0 then day else "", if i == 0 then date else ""];
    colorRow := [White, White];
    for j := 0 to |slots|
      invariant row == Render(data, PhysicalRow(day, i, cells[..j]))
      invariant colorRow == Paint(data, colors, PhysicalRow(day, i, cells[..j]))
    {
      var courseKey, color := SlotCellOf(data, colors, day, slots[j], rowCourses[slots[j]], i);
      RenderExtend(data, colors, day, i, cells, j);
      row := row + [courseKey];
      colorRow := colorRow + [color];
    }
    assert cells[..|slots|] == cells;
  }

  /** `dataSheet.find((item) => item.Day === day)?.Date || ""`, scanning from the front. */
  method FindDate(data: seq<Record>, day: string) returns (date: string)
    ensures date == DateOf(data, day)
  {
    var k := 0;
    while k < |data|
      invariant k <= |data|
      invariant DateOf(data[k..], day) == DateOf(data, day)
    {
      assert data[k..][0] == data[k] && data[k..][1..] == data[k + 1..];
      if data[k].day == day {
        return data[k].date;
      }
      k := k + 1;
    }
    return "";
  }

  /** `Math.max(...Object.values(rowCourses).map((c) => c.length))`, as a running maximum over the slots. */
  method MaxCourses(data: seq<Record>, day: string, slots: seq<string>, rowCourses: map<string, seq<Option<nat>>>)
    returns (maxCourses: nat)
    requires forall slot :: slot in rowCourses <==> slot in slots
    requires forall slot :: slot in rowCourses ==> rowCourses[slot] == SlotEntries(data, day, slot)
    ensures maxCourses == RowCount(data, day, slots)
  {
    maxCourses := 0;
    for j := 0 to |slots|
      invariant maxCourses == RowCount(data, day, slots[..j])
    {
      var length := |rowCourses[slots[j]]|;
      RowCountSnoc(data, day, slots[..j], slots[j]);
      SlicePlusOne(slots, j);
      if length > maxCourses {
        maxCourses := length;
      }
    }
    assert slots[..|slots|] == slots;
  }

  /** One iteration of `days.forEach`: the physical rows of `day` and their colours. */
  method EmitDay(data: seq<Record>, slots: seq<string>, colors: map<string, Color>, day: string)
    returns (rows: seq<seq<string>>, fills: seq<seq<Color>>)
    requires ColorsCover(data, colors)
    ensures rows == RenderRows(data, DayRows(data, slots, day))
    ensures fills == PaintRows(data, colors, DayRows(data, slots, day))
  {
    var date := FindDate(data, day);
    var rowCourses := SlotMap(data, day, slots);
    var maxCourses := MaxCourses(data, day, slots, rowCourses);
    ghost var layout := DayRows(data, slots, day);
    rows, fills := [], [];
    var i := 0;
    while i < maxCourses
      invariant 0 <= i <= maxCourses
      invariant rows == RenderRows(data, layout[..i])
      invariant fills == PaintRows(data, colors, layout[..i])
    {
      var row, colorRow := EmitRow(data, slots, colors, day, date, rowCourses, i);
      assert layout[i] == PhysicalRow(day, i, RowCells(data, slots, day, i));
      assert RenderRows(data, [layout[i]]) == [row];
      assert PaintRows(data, colors, [layout[i]]) == [colorRow];
      SlicePlusOne(layout, i);
      RenderRowsAppend(data, layout[..i], [layout[i]]);
      PaintRowsAppend(data, colors, layout[..i], [layout[i]]);
      rows := rows + [row];
      fills := fills + [colorRow];
      i := i + 1;
    }
    assert layout[..maxCourses] == layout;
  }

  /** `tableData` and `cellColors`: the rows of every day, in `days` order. */
  method BuildTable(data: seq<Record>, slots: seq<string>, colors: map<string, Color>)
    returns (tableData: seq<seq<string>>, cellColors: seq<seq<Color>>)
    requires ColorsCover(data, colors)
    ensures tableData == TableData(data, slots)
    ensures cellColors == CellColors(data, slots, colors)
  {
    var days := Days(data);
    tableData, cellColors := [], [];
    for t := 0 to |days|
      invariant tableData == RenderRows(data, LayoutOf(data, slots, days[..t]))
      invariant cellColors == PaintRows(data, colors, LayoutOf(data, slots, days[..t]))
    {
      var rows, fills := EmitDay(data, slots, colors, days[t]);
      assert days[..t + 1][..t] == days[..t];
      RenderRowsAppend(data, LayoutOf(data, slots, days[..t]), DayRows(data, slots, days[t]));
      PaintRowsAppend(data, colors, LayoutOf(data, slots, days[..t]), DayRows(data, slots, days[t]));
      tableData := tableData + rows;
      cellColors := cellColors + fills;
    }
    assert days[..|days|] == days;
  }

  /**
   * `rows.reduce((acc, row) => { row.forEach((cell, i) => acc[i].push(cell)); return acc; },
   * Array(width).fill().map(() => []))`. A row longer than `width` makes
   * `acc[i]` undefined and the `push` throw; that is the `None` result.
   */
  method Transpose<T>(rows: seq<seq<T>>, width: nat) returns (cols: Option<seq<seq<T>>>)
    ensures cols.Some? <==> forall r :: 0 <= r < |rows| ==> |rows[r]| <= width
    ensures cols.Some? ==> cols.value == Columns(rows, width)
  {
    var acc := new seq<T>[width](_ => []);
    for r := 0 to |rows|
      invariant forall c :: 0 <= c < width ==> acc[c] == Column(rows[..r], c)
      invariant forall r' :: 0 <= r' < r ==> |rows[r']| <= width
    {
      var row := rows[r];
      assert rows[..r + 1][..r] == rows[..r];
      for i := 0 to |row|
        invariant i <= width
        invariant forall c :: 0 <= c < width ==> acc[c] == Column(rows[..r], c) + (if c < i then [row[c]] else [])
      {
        if i >= width {
          return None;
        }
        acc[i] := acc[i] + [row[i]];
      }
    }
    assert rows[..|rows|] == rows;
    cols := Some(acc[..]);
  }

  /** Every row of `tableData` and of `cellColors` has |timeSlots| + 2 entries. */
  lemma TableWidth(data: seq<Record>, slots: seq<string>, colors: map<string, Color>)
    requires ColorsCover(data, colors)
    ensures |TableData(data, slots)| == |CellColors(data, slots, colors)|
    ensures forall r :: 0 <= r < |TableData(data, slots)| ==> |TableData(data, slots)[r]| == |slots| + 2
    ensures forall r :: 0 <= r < |CellColors(data, slots, colors)| ==> |CellColors(data, slots, colors)[r]| == |slots| + 2
  {
    forall r | 0 <= r < |TableData(data, slots)| {
      TableRowShape(data, slots, colors, r);
    }
  }

  /**
   * The component: the Plotly table's `cells.values` and `cells.fill.color`,
   * each |timeSlots| + 2 column lists of one entry per physical row.
   */
  method BuildGrid(data: seq<Record>, slots: seq<string>, random: nat -> real)
    returns (values: seq<seq<string>>, fill: seq<seq<Color>>)
    requires UnitOracle(random)
    ensures values == Columns(TableData(data, slots), |slots| + 2)
    ensures fill == Columns(CellColors(data, slots, CourseColors(data, random)), |slots| + 2)
  {
    var courseColors := AssignColors(data, random);
    CourseColorsCover(data, random);
    var tableData, cellColors := BuildTable(data, slots, courseColors);
    TableWidth(data, slots, courseColors);
    var v := Transpose(tableData, |slots| + 2);
    var f := Transpose(cellColors, |slots| + 2);
    values, fill := v.value, f.value;
  }

  /**
   * `values[c][r] == tableData[r][c]` and `fill[c][r] == cellColors[r][c]`:
   * both results are the exact transposes.
   */
  lemma GridIsTransposed(data: seq<Record>, slots: seq<string>, random: nat -> real, c: nat, r: nat)
    requires UnitOracle(random)
    requires c < |slots| + 2 && r < |TableData(data, slots)|
    ensures |TableData(data, slots)[r]| == |slots| + 2
    ensures var colors := CourseColors(data, random);
      && r < |CellColors(data, slots, colors)| && |CellColors(data, slots, colors)[r]| == |slots| + 2
    ensures var colors := CourseColors(data, random);
      && |Columns(TableData(data, slots), |slots| + 2)[c]| == |TableData(data, slots)|
      && Columns(TableData(data, slots), |slots| + 2)[c][r] == TableData(data, slots)[r][c]
      && |Columns(CellColors(data, slots, colors), |slots| + 2)[c]| == |TableData(data, slots)|
      && Columns(CellColors(data, slots, colors), |slots| + 2)[c][r] == CellColors(data, slots, colors)[r][c]
  {
    var colors := CourseColors(data, random);
    var text := TableData(data, slots);
    var fill := CellColors(data, slots, colors);
    CourseColorsCover(data, random);
    TableWidth(data, slots, colors);
    ColumnOfRectangle(text, |slots| + 2, c);
    ColumnOfRectangle(fill, |slots| + 2, c);
    assert Columns(text, |slots| + 2)[c] == Column(text, c);
    assert Columns(fill, |slots| + 2)[c] == Column(fill, c);
  }
}
