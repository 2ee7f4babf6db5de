/**
 * The two HTTP handlers of backend/main.py as functions of the raw sheet and
 * the query string: `GET /datesheet?courses=...` (parse the comma list, filter
 * the sheet when the list is non-empty) and `GET /courses?query=...` (the
 * case-insensitive suggestion filter). A handler that raises answers with
 * HTTP 500, modelled as `ServerError` / `None`.
 */
module Api {
  import opened Wrappers
  import opened Text
  import opened Sequences
  import opened Schedule
  import opened Datesheet
  import Selection

  /** The `if course` test of the list comprehension: the piece before stripping is non-empty. */
  predicate NonEmpty(piece: string) {
    piece != []
  }

  /** The comma-separated pieces that survive the `if course` test. */
  function RequestedPieces(courses: string): seq<string> {
    Filter(Split(courses, ','), NonEmpty)
  }

  /**
   * `[course.strip() for course in courses.split(",") if course]`: entry `k`
   * is the `k`-th non-empty piece, stripped, so every entry is comma-free and
   * already stripped.
   */
  function ParseCourseList(courses: string): (r: seq<string>)
    ensures |r| == |RequestedPieces(courses)|
    ensures forall k :: 0 <= k < |r| ==> r[k] == Strip(RequestedPieces(courses)[k])
    ensures forall k :: 0 <= k < |r| ==> ',' !in r[k] && Strip(r[k]) == r[k]
  {
    var pieces := RequestedPieces(courses);
    assert forall k :: 0 <= k < |pieces| ==> ',' !in Strip(pieces[k]) && Strip(Strip(pieces[k])) == Strip(pieces[k]) by {
      FilterSpec(Split(courses, ','), NonEmpty);
      forall k | 0 <= k < |pieces| ensures ',' !in Strip(pieces[k]) && Strip(Strip(pieces[k])) == Strip(pieces[k]) {
        assert pieces[k] in Split(courses, ',');
        StripSpec(pieces[k]);
        StripIdempotent(pieces[k]);
      }
    }
    seq(|pieces|, k requires 0 <= k < |pieces| => Strip(pieces[k]))
  }

  /**
   * The course list is empty exactly when the query string consists of commas
   * only (in particular for the default `""`).
   */
  lemma ParseCourseListEmpty(courses: string)
    ensures ParseCourseList(courses) == [] <==> forall i :: 0 <= i < |courses| ==> courses[i] == ','
  {
    var split := Split(courses, ',');
    FilterSpec(split, NonEmpty);
    if ParseCourseList(courses) == [] {
      assert forall k :: 0 <= k < |split| ==> split[k] == [] by {
        forall k | 0 <= k < |split| ensures split[k] == [] {
          assert split[k] in split;
        }
      }
      JoinOfEmpties(split, ',');
    } else {
      var p := RequestedPieces(courses)[0];
      assert p in RequestedPieces(courses);
      var k :| 0 <= k < |split| && split[k] == p;
      JoinChars(split, ',', k, p[0]);
      assert p[0] != ',';
    }
  }

  /** JavaScript's `codes.join(",")`: the empty array joins to the empty string. */
  function JoinCodes(codes: seq<string>): string {
    if codes == [] then "" else Join(codes, ',')
  }

  /**
   * Parsing a joined list of non-empty, comma-free, stripped codes gives the
   * codes back, in order.
   */
  lemma ParseJoinedCodes(codes: seq<string>)
    requires forall k :: 0 <= k < |codes| ==> codes[k] != [] && ',' !in codes[k] && Strip(codes[k]) == codes[k]
    ensures ParseCourseList(JoinCodes(codes)) == codes
  {
    if codes == [] {
      assert Split("", ',') == [""];
    } else {
      SplitJoin(codes, ',');
      FilterAll(codes, NonEmpty);
    }
  }

  /**
   * The codes the frontend sends for its selected tags arrive at the backend
   * unchanged, provided each code is non-empty, comma-free and stripped.
   */
  lemma SelectedCodesArrive(selected: seq<string>)
    requires forall k :: 0 <= k < |selected| ==>
      var code := Selection.CourseCode(selected[k]); code != [] && ',' !in code && Strip(code) == code
    ensures ParseCourseList(JoinCodes(Selection.CourseCodes(selected))) == Selection.CourseCodes(selected)
  {
    ParseJoinedCodes(Selection.CourseCodes(selected));
  }

  /** The JSON body of `GET /datesheet`, or HTTP 500. */
  datatype SheetResponse =
    | ServerError
    | Unfiltered(sheet: Frame, timeSlots: seq<string>)
    | Filtered(records: seq<Extracted>, timeSlots: seq<string>)

  /**
   * `get_datesheet`: load the sheet, take the time slots from its headers
   * before any filtering, and filter it when the course list is non-empty.
   */
  function GetDatesheet(raw: Frame, courses: string, normalizeDate: Cell -> Cell): (a: SheetResponse)
    requires WellFormed(raw)
    ensures a.ServerError? <==>
      raw.rows == [] || (ParseCourseList(courses) != [] && |raw.columns| < 2 && Load(raw).value.rows != [])
    ensures raw.rows != [] && ParseCourseList(courses) == [] ==> a == Unfiltered(Load(raw).value, TimeSlots(raw.columns))
    ensures !a.ServerError? ==> a.timeSlots == TimeSlots(raw.columns)
    ensures a.Filtered? ==> ParseCourseList(courses) != []
    ensures a.Unfiltered? ==> ParseCourseList(courses) == []
    ensures a.Filtered? ==> forall e :: e in a.records ==> e.courseCode in Normalized(ParseCourseList(courses))
  {
    LoadSpec(raw);
    match Load(raw)
    case None => ServerError
    case Some(df) =>
      var timeSlots := TimeSlots(df.columns);
      var courseList := ParseCourseList(courses);
      if courseList == [] then Unfiltered(df, timeSlots)
      else
        match FilterSheet(df, courseList, normalizeDate)
        case None => ServerError
        case Some(records) => Filtered(records, timeSlots)
  }

  /**
   * With a non-empty course list and a sheet of at least two columns, the
   * answer holds exactly the extracted entries whose code was requested, each
   * as often as it was extracted, in sheet order.
   */
  lemma GetDatesheetFiltered(raw: Frame, courses: string, normalizeDate: Cell -> Cell)
    requires WellFormed(raw) && raw.rows != [] && |raw.columns| >= 2 && ParseCourseList(courses) != []
    ensures Load(raw).Some? && WellFormed(Load(raw).value)
    ensures var df := Load(raw).value; var a := GetDatesheet(raw, courses, normalizeDate);
      a.Filtered? &&
      (forall e :: e in a.records <==>
        (exists k: nat, i: nat :: Yields(df.columns, df.rows, normalizeDate, k, i, e)) &&
        e.courseCode in Normalized(ParseCourseList(courses))) &&
      (forall e :: multiset(a.records)[e] ==
        if e.courseCode in Normalized(ParseCourseList(courses)) then multiset(Extract(df.columns, df.rows, normalizeDate))[e] else 0) &&
      IsSubsequence(a.records, Extract(df.columns, df.rows, normalizeDate))
  {
    LoadSpec(raw);
    FilterSheetSpec(Load(raw).value, ParseCourseList(courses), normalizeDate);
  }

  /** The substring test of the suggestion filter on lower-cased name and code. */
  predicate Matches(c: Course, q: string) {
    Contains(Lower(c.name), q) || Contains(Lower(c.code), q)
  }

  /**
   * Lines 57-66 of `get_course_suggestions`: without a query every course,
   * otherwise those whose name or code contains the stripped, lower-cased
   * query, in their original order.
   */
  function Suggestions(courses: seq<Course>, query: string): (r: seq<Course>)
    ensures IsSubsequence(r, courses)
    ensures query == [] ==> r == courses
    ensures query != [] ==> forall c :: c in r <==> c in courses && Matches(c, Lower(Strip(query)))
    ensures query != [] ==> forall c :: multiset(r)[c] == if Matches(c, Lower(Strip(query))) then multiset(courses)[c] else 0
  {
    if query == [] then
      SubsequenceRefl(courses);
      courses
    else
      var q := Lower(Strip(query));
      var keep := (c: Course) => Matches(c, q);
      FilterSpec(courses, keep);
      FilterIsSubsequence(courses, keep);
      Filter(courses, keep)
  }

  /** A query of blanks strips to the empty pattern, which every course contains. */
  lemma BlankQueryKeepsAll(courses: seq<Course>, query: string)
    requires forall i :: 0 <= i < |query| ==> IsSpace(query[i])
    ensures Suggestions(courses, query) == courses
  {
    if query != [] {
      StripSpec(query);
      var keep := (c: Course) => Matches(c, Lower(Strip(query)));
      forall k | 0 <= k < |courses| ensures keep(courses[k]) {
        assert OccursAt(Lower(courses[k].name), [], 0);
      }
      FilterAll(courses, keep);
    }
  }

  /** Course order by `(code, name)`, the order of the listing. */
  predicate CourseLt(c: Course, d: Course) {
    Sorting.PairLt((c.code, c.name), (d.code, d.name))
  }

  /**
   * `get_course_suggestions`: the courses of the sheet's listing that match
   * the query (all of them without a query), sorted by `(code, name)` and
   * free of duplicates; HTTP 500 when the sheet has no rows.
   */
  function CourseSuggestions(raw: Frame, query: string): (r: Option<seq<Course>>)
    requires WellFormed(raw)
    ensures r.None? <==> raw.rows == []
    ensures r.Some? ==> Chain(r.value, CourseLt)
    ensures r.Some? ==> forall c :: c in r.value ==> c in CourseListing(Load(raw).value)
    ensures r.Some? ==> r.value == Suggestions(CourseListing(Load(raw).value), query)
    ensures r.Some? && query == [] ==> r.value == CourseListing(Load(raw).value)
    ensures r.Some? && query != [] ==> forall c ::
      c in r.value <==> c in CourseListing(Load(raw).value) && Matches(c, Lower(Strip(query)))
  {
    LoadSpec(raw);
    match Load(raw)
    case None => None
    case Some(df) =>
      var listing := CourseListing(df);
      var r := Suggestions(listing, query);
      assert Chain(listing, CourseLt);
      SubsequenceChain(r, listing, CourseLt);
      SubsequenceMembers(r, listing);
      Some(r)
  }
}
