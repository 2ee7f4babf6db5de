# FAST-Dash exam date sheet: a verified model

FAST-Dash shows a university's exam date sheet. A FastAPI backend reads the
sheet, a wide table with `Day`, `Date` and then pairs of course-code and
course-name columns whose headers carry the time slots. The backend serves:

- course suggestions for a search box;
- the sheet filtered to the selected course codes.

A React frontend keeps the selected courses as tags. It shows the filtered
sheet as a list or as a Plotly grid: one column per time slot, one row per
day, and extra rows when a slot holds several exams.

This project models the core of both sides in Dafny:

| module (file) | models |
|---|---|
| `Datesheet` (`datesheet.dfy`) | `backend/services/datesheet.py`. The DataFrame is a header sequence plus rows of cells: missing, string or other. The cleaning steps of `load_datesheet`, the stepped pairing loop of `get_courses_with_codes`, the active `filter_datesheet` and `extract_time_slots` are methods, each proved equal to a specification function whose properties are lemmas. |
| `Api` (`api.dfy`) | `backend/main.py`. The parsing of the course list, the `/datesheet` and `/courses` handlers as functions of the loaded sheet, and the case-insensitive suggestion filter. |
| `GridSpec`, `GridTableView` (`grid_spec.dfy`, `grid_table_view.dfy`) | `frontend/src/GridTableView.jsx`. `GridSpec` defines the distinct days, the course colours, the physical row layout, the rendered table and its colours, and the column-wise transposition. It proves their properties: the row shape, equal keys getting equal colours, and coverage: when the time slots are distinct, every record whose slot is listed is shown in exactly one cell, and a record whose slot is not listed is never shown. `GridTableView` holds the imperative construction with its loops, proved equal to those definitions. |
| `CourseColor` (`course_color.dfy`) | `generateColor` of `frontend/src/App.jsx`. The hash loop uses JavaScript's 32-bit shift semantics. |
| `Selection` (`selection.dfy`) | The state handlers of `frontend/src/App.jsx`, as transitions of the component state: select, remove, input change, view toggle, and the course codes sent to the backend. |
| `Text`, `Sequences`, `Sorting`, `Schedule`, `Wrappers` | Python and JavaScript library semantics the core relies on, and the shared record types. The library semantics are `strip`, `upper`, `lower`, `in` on strings, `split(",")`, string and tuple ordering, `sort`, `sorted`, `[...new Set(..)]` and `filter`. |

External inputs become parameters:

- `Math.random` is an oracle `random: nat -> real` with values in [0, 1). The n-th newly seen course key uses draws 3n, 3n+1 and 3n+2.
- The date conversion `pd.to_datetime(...).strftime(...)`, together with its try/except, is an arbitrary function `normalizeDate` on cells.
- The Excel file is the raw frame `read_excel` would produce.

A handler that raises (an `HTTPException` 500) is `ServerError` or `None`.

Two places where the model follows what the code does rather than what it says:

- The comment at `frontend/src/GridTableView.jsx:39` promises at least one row per day. With no time slots, however, `Math.max()` of nothing is `-Infinity`, the row loop never runs, and the day emits no rows. `GridSpec.RowCountSpec` states this behaviour.
- The commented-out older `filter_datesheet` matched course names. The active one, at `backend/services/datesheet.py:49-78`, matches the requested codes against the code column after `strip().upper()`. The model follows the active code.

## Model

| member | source | states |
|---|---|---|
| GridSpec.RandomColor | frontend/src/GridTableView.jsx:5-10 | for draws in [0,1) the colour has hue in [0,359], saturation in [70,99] and lightness in [80,99] |
| GridSpec.Days | frontend/src/GridTableView.jsx:14 | defines `days` as the de-duplicated day column; its properties are `DaysSpec` |
| GridSpec.DaysSpec | frontend/src/GridTableView.jsx:14 | `days` has no duplicates; holds exactly the `Day` values of the input, every record's day included; ordered by first occurrence |
| GridSpec.DayColumn | frontend/src/GridTableView.jsx:14 | one entry per record, the record's `Day` |
| GridSpec.Keys | frontend/src/GridTableView.jsx:20 | one entry per record, its `"code - name"` key |
| GridSpec.CourseColors | frontend/src/GridTableView.jsx:17-26 | defines `courseColors` as the fold over the records that draws a colour for a key met first; its properties are `CourseColorsSpec` |
| GridSpec.CourseColorsSpec | frontend/src/GridTableView.jsx:17-26 | the colour map has a key exactly for each course key of the input; the n-th distinct key in first-occurrence order holds the n-th random colour, so an entry is set at first sight and never overwritten; every colour lies in the light band |
| GridSpec.CourseColorsDomain | frontend/src/GridTableView.jsx:17-26 | the colour map has a key exactly for each course key of the input |
| GridSpec.CourseColorsOrder | frontend/src/GridTableView.jsx:19-24 | the n-th distinct key, in first-occurrence order, holds the colour drawn from the n-th triple of random draws |
| GridSpec.CourseColorsBand | frontend/src/GridTableView.jsx:5-10 | every colour of the map lies in the light band of `getRandomColor` |
| GridSpec.CourseColorsCover | frontend/src/GridTableView.jsx:17-26 | every record's course key has a colour |
| GridTableView.AssignColors | frontend/src/GridTableView.jsx:17-26 | the `forEach` loop with its `if (!colors[courseKey])` guard builds exactly the map `CourseColors` |
| GridTableView.ColorsStep | frontend/src/GridTableView.jsx:19-24 | one loop step adds a random colour for a new key, using the next draws; a known key changes nothing |
| GridSpec.DateOf | frontend/src/GridTableView.jsx:33 | `""` when no record has that day, otherwise the `Date` of the first record with that day |
| GridSpec.Matching | frontend/src/GridTableView.jsx:38 | exactly the indices of the records with that day and slot, in ascending input order |
| GridSpec.CellAt | frontend/src/GridTableView.jsx:51 | defines `rowCourses[slot][i] \|\| ""`; its meaning is `CellAtSpec` |
| GridSpec.CellAtSpec | frontend/src/GridTableView.jsx:39-51 | row i of a slot shows the i-th matching record, or nothing past the last one |
| GridTableView.SlotMap | frontend/src/GridTableView.jsx:37-40 | `rowCourses` has a key exactly for each time slot; each value is the slot's matching records, or `[null]` when there are none |
| GridSpec.SlotEntries | frontend/src/GridTableView.jsx:38-39 | defines `rowCourses[slot]`, the matching records or `[null]`; its size is `SlotEntriesSize` |
| GridSpec.SlotEntriesSize | frontend/src/GridTableView.jsx:38-39 | a slot's entry list has one entry per matching record, or a single `null` when none matches |
| GridSpec.RowCount | frontend/src/GridTableView.jsx:43 | defines `maxCourses` as the maximum of the slot lists' lengths, 0 without slots; its properties are `RowCountSpec` |
| GridSpec.RowCountSnoc | frontend/src/GridTableView.jsx:43 | one more slot in the spread raises the maximum to that slot's length when it is larger, and otherwise leaves it |
| GridSpec.RowCountSpec | frontend/src/GridTableView.jsx:42-46 | a day has 0 rows exactly when there are no slots; otherwise as many as its busiest slot (equal to one slot's count, at least every slot's count, at least 1) |
| GridSpec.RowCells | frontend/src/GridTableView.jsx:50-52 | row i has one cell per slot, holding that slot's i-th record |
| GridSpec.DayRows | frontend/src/GridTableView.jsx:46-59 | a day contributes `RowCount` rows, the i-th with offset i and the cells of row i |
| GridSpec.LayoutOf | frontend/src/GridTableView.jsx:32-60 | defines the physical rows of the given days, concatenated in order; its properties are `LayoutOfWellFormed` and `LayoutOfOccurrences` |
| GridSpec.LayoutOfWellFormed | frontend/src/GridTableView.jsx:32-60 | every physical row has one cell per slot, and every cell names an existing record |
| GridSpec.Render | frontend/src/GridTableView.jsx:47-53 | a row has two leading cells plus one per slot |
| GridSpec.Paint | frontend/src/GridTableView.jsx:48-54 | a colour row has two leading colours plus one per slot |
| GridSpec.RenderRows | frontend/src/GridTableView.jsx:57 | one rendered row per physical row, in order |
| GridSpec.PaintRows | frontend/src/GridTableView.jsx:58 | one colour row per physical row, in order |
| GridSpec.RenderRowsAppend | frontend/src/GridTableView.jsx:57 | pushing the rows of successive days concatenates them |
| GridSpec.PaintRowsAppend | frontend/src/GridTableView.jsx:58 | same for the colour rows |
| GridSpec.SlotCell | frontend/src/GridTableView.jsx:50-54 | the j-th slot cell of a row shows the course key of the slot's i-th record, or `""`, and is coloured with that key's colour, or white |
| GridSpec.RowShape | frontend/src/GridTableView.jsx:47-55 | a row and its colour row have \|timeSlots\|+2 entries; the first two colours are white; day and date are shown on the first row only, `""` otherwise; slot cells show the course key; an empty cell is white, a filled one has its course's colour |
| GridSpec.RowsShape | frontend/src/GridTableView.jsx:47-58 | the same facts for every row of a sequence of physical rows |
| GridSpec.TableRowShape | frontend/src/GridTableView.jsx:28-60 | the same facts for every row of `tableData` and `cellColors`, which have equally many rows |
| GridSpec.SameCourseSameColor | frontend/src/GridTableView.jsx:51-54 | two slot cells that show the same text have the same colour |
| GridSpec.RowOccurrences | frontend/src/GridTableView.jsx:50-55 | with distinct slots, a record appears in row i of a day once if i is its rank among its slot's records, and otherwise never |
| GridSpec.DayOccurrences | frontend/src/GridTableView.jsx:46-59 | within a day's rows, a record appears once if it belongs to that day and to a listed slot, and otherwise never |
| GridSpec.LayoutOfOccurrences | frontend/src/GridTableView.jsx:32-60 | over distinct days, a record appears once if its day is among them and its slot is listed |
| GridSpec.Coverage | frontend/src/GridTableView.jsx:32-60 | with distinct time slots, every record whose slot is listed appears in exactly one cell of the grid; every other record appears in none |
| GridSpec.CountInIndicator | frontend/src/GridTableView.jsx:50-55 | a row in which only one position holds a record shows it once |
| GridSpec.OccurrencesIndicator | frontend/src/GridTableView.jsx:46-59 | rows in which only one row shows a record show it once in total |
| GridSpec.OccurrencesAppend | frontend/src/GridTableView.jsx:57 | occurrence counts add up over concatenated rows |
| GridTableView.RenderExtend | frontend/src/GridTableView.jsx:50-55 | pushing one more slot cell extends the rendered row and its colours by that cell |
| GridTableView.SlotCellOf | frontend/src/GridTableView.jsx:51-54 | the key and colour computed under a slot in row i are that cell's text and colour: the course key of the slot's i-th record and its colour, or `""` and white |
| GridTableView.EmitRow | frontend/src/GridTableView.jsx:46-59 | the inner `timeSlots.forEach` builds exactly the rendered row and colour row of physical row i |
| GridTableView.FindDate | frontend/src/GridTableView.jsx:33 | the front-to-back `find` returns exactly `DateOf`: the first record of the day's date, or `""` |
| GridTableView.MaxCourses | frontend/src/GridTableView.jsx:43 | the running maximum of the slot lists' lengths is exactly `RowCount`, 0 without slots |
| GridTableView.EmitDay | frontend/src/GridTableView.jsx:32-60 | a day's `for` loop emits exactly the rendered rows and colour rows of the day |
| GridTableView.BuildTable | frontend/src/GridTableView.jsx:28-60 | the `days.forEach` loop builds exactly `tableData` and `cellColors`: the days' rows concatenated in `days` order |
| GridTableView.TableWidth | frontend/src/GridTableView.jsx:47-58 | `tableData` and `cellColors` have the same number of rows, and every row of either has \|timeSlots\|+2 entries |
| GridSpec.ColumnOfRectangle | frontend/src/GridTableView.jsx:83-89 | on rows of equal width, column c has one entry per row, the row's c-th cell |
| GridSpec.Columns | frontend/src/GridTableView.jsx:83-89 | there are `width` column lists, the c-th being column c |
| GridTableView.Transpose | frontend/src/GridTableView.jsx:83-89 | the `reduce` fails exactly when a row is longer than the accumulator (where `acc[i]` is undefined); otherwise it yields exactly the column lists |
| GridTableView.BuildGrid | frontend/src/GridTableView.jsx:12-98 | `cells.values` and `fill.color` are the column lists of `tableData` and `cellColors`, over the colour map drawn for the input |
| GridTableView.GridIsTransposed | frontend/src/GridTableView.jsx:83-98 | `values` has \|timeSlots\|+2 columns, each of \|tableData\| entries, with `values[c][r] == tableData[r][c]`; the fill colours are transposed the same way |
| CourseColor.ToInt32 | frontend/src/App.jsx:9 | a 32-bit signed value congruent to the argument modulo 2^32; identity on that range |
| CourseColor.ShiftLeft5 | frontend/src/App.jsx:9 | `hash << 5`: a 32-bit signed value congruent to 32·ToInt32(hash) modulo 2^32 |
| CourseColor.Hue | frontend/src/App.jsx:11 | `Math.abs(hash) % 360`: in [0,359] and congruent to \|hash\| modulo 360 |
| CourseColor.GenerateColor | frontend/src/App.jsx:6-13 | the loop computes `hsl(Hue(Hash(text)), 70%, 80%)`, a deterministic function of the text; hue in [0,359]; the empty text gives hue 0 |
| CourseColor.Step | frontend/src/App.jsx:9 | defines one loop step `charCode + ((hash << 5) - hash)`; without wrap-around it is `StepWithoutWrap` |
| CourseColor.Hash | frontend/src/App.jsx:7-10 | defines the hash after the loop as the left fold of `Step`; `GenerateColor` computes it and `HashIsPolynomialWhileSmall` characterises it |
| CourseColor.StepWithoutWrap | frontend/src/App.jsx:9 | while the hash is small, a step is `31·h + charCode` |
| CourseColor.HashIsPolynomialWhileSmall | frontend/src/App.jsx:7-10 | while every prefix's value stays small, the hash is the base-31 polynomial of the character codes |
| Selection.Initial | frontend/src/App.jsx:38-45 | no courses, no sheet, list view |
| Selection.CourseText | frontend/src/App.jsx:71 | defines the tag text `code - name`; `CourseCodeOfText` recovers the code from it |
| Selection.SelectCourse | frontend/src/App.jsx:70-77 | the tag `"code - name"` ends up among the courses; it is appended only when absent, so existing entries keep their order and no duplicate is created; input and suggestions are cleared every time; nothing else changes |
| Selection.RemoveCourse | frontend/src/App.jsx:79-83 | the removed tag is gone; every other tag keeps its multiplicity and relative order; the sheet and time slots are cleared |
| Selection.InputChange | frontend/src/App.jsx:47-54 | the input takes the query; a fetch is needed exactly when the query has at least 2 characters; suggestions are cleared otherwise and kept until the answer arrives when a fetch is needed; the courses, sheet, time slots and view mode are unchanged |
| Selection.ToggleView | frontend/src/App.jsx:164-166 | with a non-empty sheet the view mode flips; with an empty sheet (the button is disabled) nothing changes; only the view mode ever changes |
| Selection.ToggleTwice | frontend/src/App.jsx:165 | toggling twice restores the state |
| Selection.CourseCode | frontend/src/App.jsx:89 | `course.split(" - ")[0]`: the prefix before the first `" - "`, or the whole tag when there is none |
| Selection.CourseCodes | frontend/src/App.jsx:89 | one code per selected tag, in order |
| Selection.CourseCodeOfText | frontend/src/App.jsx:71-89 | the code taken from a tag built from a course is that course's code, whenever `" - "` neither occurs in the code nor straddles its end |
| Api.SelectedCodesArrive | frontend/src/App.jsx:89-91 | the courses parameter built from the tags is parsed by the backend back into exactly the tags' codes, when those are non-empty, comma-free and stripped |
| Datesheet.MissingCount | backend/services/datesheet.py:11 | `row.isna().sum()`: the number of missing cells |
| Datesheet.Load | backend/services/datesheet.py:8-14 | defines the cleaned frame, or failure without data rows; its properties are `LoadSpec` |
| Datesheet.LoadSpec | backend/services/datesheet.py:11-13 | loading fails exactly when the sheet has no data row; it keeps the header and the one-cell-per-column shape; it drops the first row exactly when more than half of its cells are missing; the kept rows are a suffix of the raw rows |
| Datesheet.LastPresentSpec | backend/services/datesheet.py:13 | the forward-filled value is missing exactly when no row so far has a value; otherwise it is the value of the last row that has one |
| Datesheet.FillColumn | backend/services/datesheet.py:13 | forward-filling one column sets each of its cells to the last present value so far, and leaves every other cell and the shape as they were |
| Datesheet.FillDown | backend/services/datesheet.py:13 | the filled table has the shape of the input |
| Datesheet.LoadFillsFromAbove | backend/services/datesheet.py:13 | only missing `Day`/`Date` cells change, each taking the value filled into the row above (still missing on the first row) |
| Datesheet.LoadLeavesNoGaps | backend/services/datesheet.py:13 | after the first value in the `Day` or `Date` column, no cell of that column is missing |
| Datesheet.LoadDatesheet | backend/services/datesheet.py:8-14 | the drop-then-ffill loops compute exactly `Load` |
| Datesheet.CourseColumns | backend/services/datesheet.py:18 | `df.iloc[:, 2:]`: every row without its first two cells |
| Datesheet.PairAt | backend/services/datesheet.py:21-24 | defines when the n-th pair of the stepped loop holds two strings whose stripped values are a given pair |
| Datesheet.CodePairs | backend/services/datesheet.py:19-24 | defines `course_data` after the stepped loop; its meaning is `CodePairsSpec` |
| Datesheet.CodePairsSpec | backend/services/datesheet.py:21-24 | a pair is collected exactly when some even position 2n holds a string code and 2n+1 a string name whose stripped values are the pair |
| Datesheet.PairAtShift | backend/services/datesheet.py:21-24 | the pair at position n+1 is the pair at position n once the first two cells are dropped |
| Datesheet.CodePairsStep | backend/services/datesheet.py:21-24 | one step of the paired loop adds the stripped pair when both cells are strings and nothing otherwise |
| Datesheet.CollectPairs | backend/services/datesheet.py:19-24 | the `range(0, len(courses) - 1, 2)` loop with its `isinstance` test builds exactly the set of collected pairs |
| Datesheet.CourseListing | backend/services/datesheet.py:16-26 | the courses are strictly ascending by (code, name), and a course is listed exactly when its pair was collected |
| Datesheet.CourseListingSpec | backend/services/datesheet.py:18-26 | a course is listed exactly when some pair position of the flattened non-empty rows yields it; codes and names are stripped; no course is listed twice |
| Datesheet.CoursesWithCodes | backend/services/datesheet.py:16-26 | the stepped loop over `range(0, len(courses) - 1, 2)`, then `sorted`, computes exactly `CourseListing` |
| Datesheet.Normalized | backend/services/datesheet.py:51 | defines `normalized_courses`, the stripped, upper-cased requested codes |
| Datesheet.RowRecords | backend/services/datesheet.py:63-71 | defines the records the column scan takes from one row; its meaning is `RowRecordsSpec` |
| Datesheet.RecordColumns | backend/services/datesheet.py:63-70 | the reachable even code columns holding a string, strictly ascending, and every such column is listed |
| Datesheet.RowRecordsMembers | backend/services/datesheet.py:63-71 | a record is taken exactly when some reachable code column holding a string yields it |
| Datesheet.RowRecordsColumns | backend/services/datesheet.py:63-71 | the scan takes as many records as there are reachable string code columns, and record t comes from the t-th of them |
| Datesheet.RowRecordsSpec | backend/services/datesheet.py:63-71 | the column scan of a row takes exactly one record per reachable code column holding a string, left to right: record t comes from the t-th such column and holds the row's day, the date, the header of the name column, the stripped upper-cased code and the name cell |
| Datesheet.Extract | backend/services/datesheet.py:54-71 | defines `extracted_data` after the row loop; its meaning is `ExtractSpec` and `ExtractSplit` |
| Datesheet.ExtractSpec | backend/services/datesheet.py:54-71 | `extracted_data` holds exactly the records that some row yields from one of its code columns |
| Datesheet.ExtractSplit | backend/services/datesheet.py:54-71 | extraction over a split sequence of rows is the concatenation of the two halves' extractions, so rows contribute in order |
| Datesheet.KeepRequested | backend/services/datesheet.py:76 | `isin` keeps exactly the records whose code is requested, each as many times as it occurs, and drops every other one; the kept records stay in their order |
| Datesheet.FilterSheet | backend/services/datesheet.py:49-78 | fails (`row.iloc[:2]` cannot unpack) exactly when there are rows and fewer than two columns; every kept record's code is a requested code, stripped and upper-cased |
| Datesheet.FilterSheetSpec | backend/services/datesheet.py:49-78 | with two or more columns the result is exactly the extracted records whose code is requested, each with its multiplicity among the extracted records, as a subsequence of all extracted records |
| Datesheet.RowRecordsStep | backend/services/datesheet.py:63-71 | one step of the column scan adds the record of columns i and i+1 when the code cell is a string, and nothing otherwise |
| Datesheet.ScanRow | backend/services/datesheet.py:63-71 | the `for i in range(2, len(row), 2)` loop with its `break` computes exactly the row's records |
| Datesheet.FilterDatesheet | backend/services/datesheet.py:49-78 | the row loop followed by the `isin` filter computes exactly `FilterSheet` |
| Datesheet.TimeSlots | backend/services/datesheet.py:80-93 | ascending; each header containing `" - "` after the first two columns appears as often as in those columns; no other value appears |
| Datesheet.Drop2Members | backend/services/datesheet.py:86 | `df.columns[2:]` holds exactly the headers after the first two |
| Datesheet.SortedMembers | backend/services/datesheet.py:91 | sorting keeps exactly the elements of the list |
| Datesheet.ExtractTimeSlots | backend/services/datesheet.py:85-93 | the selection loop and the sort compute exactly `TimeSlots` |
| Api.ParseCourseList | backend/main.py:32 | entry k is the k-th non-empty comma-separated piece, stripped, and there is no other entry; every entry is comma-free and stripped |
| Api.ParseCourseListEmpty | backend/main.py:32-33 | the course list is empty exactly when the parameter consists of commas only, the default `""` included |
| Api.JoinCodes | frontend/src/App.jsx:89 | defines `codes.join(",")`, `""` for no codes; its round trip with the backend is `ParseJoinedCodes` |
| Api.ParseJoinedCodes | backend/main.py:32 | parsing a comma-join of non-empty, comma-free, stripped codes gives back exactly those codes, in order |
| Api.GetDatesheet | backend/main.py:22-44 | the answer is 500 exactly when the sheet has no data row, or when filtering is needed and the sheet has fewer than two columns and some rows; an empty course list returns the loaded sheet unfiltered, and only an empty list does; the time slots always come from the headers before filtering; a filtered answer holds only requested codes |
| Api.GetDatesheetFiltered | backend/main.py:32-34 | with a non-empty course list and two or more columns, the answer holds exactly the extracted records whose code is requested, each as often as it was extracted, in sheet order |
| Api.Matches | backend/main.py:61 | defines the test: the lower-cased name or code contains the query |
| Api.Suggestions | backend/main.py:57-66 | with no query, every course unchanged; otherwise exactly the courses whose lower-cased name or code contains the stripped, lower-cased query (sound and complete), each as often as in the input; always a subsequence of the courses, in their original order |
| Api.BlankQueryKeepsAll | backend/main.py:57-62 | a query made of blanks strips to `""`, which every course contains, so every course is suggested |
| Api.CourseSuggestions | backend/main.py:46-68 | the answer is 500 exactly when the sheet has no data row; otherwise it is `Suggestions` of the sheet's listing: the whole listing without a query, and otherwise exactly the listed courses that match the query; it is strictly ascending by (code, name), hence free of duplicates |
| Text.TrimLeftSpec | backend/services/datesheet.py:24 | `lstrip()` removes a maximal run of leading ASCII whitespace and nothing else |
| Text.TrimRightSpec | backend/services/datesheet.py:24 | `rstrip()` removes a maximal run of trailing ASCII whitespace and nothing else |
| Text.Strip | backend/services/datesheet.py:24 | defines `strip()` as `lstrip` then `rstrip`; its properties are `StripSpec` |
| Text.StripSpec | backend/services/datesheet.py:24 | `strip()` is no longer than its argument; it starts and ends with a non-blank, and is empty exactly for blank strings; it introduces no new characters |
| Text.StripIdempotent | backend/main.py:32 | stripping twice is stripping once |
| Text.Upper | backend/services/datesheet.py:51 | `upper()` maps each character and leaves no lower-case ASCII letter |
| Text.Lower | backend/main.py:58 | `lower()` maps each character and leaves no upper-case ASCII letter |
| Text.FindFrom | frontend/src/App.jsx:89 | the first occurrence of the pattern at or after a position, or none |
| Text.PrefixBefore | frontend/src/App.jsx:89 | the prefix before the separator's first occurrence, or the whole string without one |
| Text.Split | backend/main.py:32 | `split(",")` yields at least one piece, none containing the separator, and joining the pieces restores the string |
| Text.JoinChars | backend/main.py:32 | every character of a piece occurs in the join |
| Text.JoinOfEmpties | backend/main.py:32-33 | a join of empty pieces consists of separators only |
| Text.SplitJoin | backend/main.py:32 | splitting the join of separator-free pieces gives back the pieces |
| Text.StrLtIrreflexive | backend/services/datesheet.py:91 | no string is smaller than itself |
| Text.StrLtTransitive | backend/services/datesheet.py:91 | the string order is transitive |
| Text.StrLtTotal | backend/services/datesheet.py:91 | any two different strings are comparable |
| Text.StrLtAsymmetric | backend/services/datesheet.py:91 | the string order is asymmetric |
| Sorting.SortStrings | backend/services/datesheet.py:91 | `list.sort()` returns an ascending permutation of its input |
| Sorting.InsertStringSorted | backend/services/datesheet.py:91 | inserting into an ascending list keeps it ascending |
| Sorting.InsertStringMultiset | backend/services/datesheet.py:91 | inserting adds exactly one occurrence of the element and keeps every other |
| Sorting.InsertStringMembers | backend/services/datesheet.py:91 | every element of the result is the inserted one or an element of the list |
| Sorting.SortedListing | backend/services/datesheet.py:26 | `sorted(course_data)` lists the set strictly ascending, each element once, and nothing else |
| Sorting.LeastExists | backend/services/datesheet.py:26 | a non-empty set of pairs has a least element under tuple order |
| Sorting.PairLtTotal | backend/services/datesheet.py:26 | any two different pairs are comparable under tuple order |
| Sorting.PairLtTransitive | backend/services/datesheet.py:26 | tuple order is transitive |
| Sequences.Dedup | frontend/src/GridTableView.jsx:14 | defines `[...new Set(xs)]` by keeping an element at its first occurrence; its properties are `DedupSpec` |
| Sequences.DedupSpec | frontend/src/GridTableView.jsx:14 | `[...new Set(xs)]` keeps exactly the elements of `xs`, each once, ordered by first occurrence |
| Sequences.Filter | frontend/src/App.jsx:80 | defines `filter` and the `if` of a list comprehension; its properties are `FilterSpec` |
| Sequences.FilterSpec | frontend/src/App.jsx:80 | `filter` keeps every element satisfying the test as often as it occurs, and drops every other one |
| Sequences.FilterAll | backend/main.py:32 | filtering by a test every element passes changes nothing |
| Sequences.DedupMembers | frontend/src/GridTableView.jsx:14 | `[...new Set(xs)]` keeps exactly the elements of `xs` |
| Sequences.SubsequenceMembers | backend/main.py:59-62 | every element of a subsequence is an element of the whole |
| Sequences.FilterIsSubsequence | backend/main.py:59-62 | filtering keeps the survivors in their original order |
| Sequences.SubsequenceChain | backend/main.py:59-62 | a subsequence of a sorted list is sorted |

## Left out

- I/O and plumbing: HTTP, `fetch`, FastAPI routing, the CORS middleware, logging and `print`. These carry no logic; the handlers take the loaded sheet and the query parameters as arguments.
- Sheet reading: `pd.read_excel` (the reader with `header=2`) is not modelled; the model starts from the frame it returns.
- Date normalisation: `pd.to_datetime(..., dayfirst=True).strftime(...)` and its try/except are a parameter function `normalizeDate` on cells.
- Header types: headers are modelled as strings. Pandas may give non-string header labels, on which `" - " in col` would raise.
- JSON serialisation: `df.to_dict(orient="records")` runs inside the handler's `try` (`backend/main.py:39-40`), so a failure there would also become the HTTP 500 of `backend/main.py:43-44`. That conversion and its possible failure are not modelled. The unfiltered answer is the frame itself, and the failure of serialising a response that holds NaN is not modelled either.
- URL encoding: the query strings are not URL-encoded. The model assumes the parameter arrives as built, for example when a code or query contains `&`, `#` or `+`.
- Frontend rendering: the React hooks and JSX, the `Tag` styling and the Plotly layout are left out, and so is the reactivity of `useMemo`. `frontend/src/DateSheet.js` is not part of this model.
- Loading and error state: the `isLoading` and `error` flags, and the `fetch` responses that set the suggestions or the sheet, are left out; the state records only what the handlers modelled here write.
- Colours: they are a datatype `White | Hsl(h, s, l)`, not CSS strings.
- Randomness: `Math.random` is an oracle of reals in [0,1). `Math.floor(r * n)` is modelled exactly on those reals, not on IEEE doubles.
- Text semantics: `strip`, `upper` and `lower` are modelled on ASCII only. Python strips ASCII whitespace here; Unicode whitespace and Unicode case mapping are left out.
- Selection.InputChange: the test `query.length < 2` counts UTF-16 code units; the model compares the number of characters, without UTF-16 surrogate splitting.
- CourseColor.GenerateColor: the hash uses mathematical integers for the subtraction and the addition, so JavaScript's double-precision rounding past 2^53 is not modelled; `charCodeAt` is the character's code, without UTF-16 surrogate splitting.
- Cell values: a cell that is neither a string nor missing (a number or a timestamp) is an opaque tag, and `isinstance(..., str)` is the test for the string case.
- Datesheet.Load: it ignores `reset_index`, because row labels are not modelled.
- Sorting.SortStrings: it is an insertion sort; Python's `sort` is stable, and for strings any ascending permutation is the same list.
- Datesheet.CourseListing: a course is `{code, name}` as in the JSON; the dictionary representation is not modelled.
