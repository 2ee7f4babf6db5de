/**
 * The state transitions of frontend/src/App.jsx: selecting and removing
 * course tags, the short-query guard of the search box, the list/grid toggle,
 * and the course codes sent to the backend. Each handler is a pure function
 * from the old component state to the new one.
 */
module Selection {
  import opened Schedule
  import opened Sequences
  import opened Text

  datatype ViewMode = List | Grid

  /** The component state the handlers read and write (loading and error flags are left out). */
  datatype State = State(
    courseInput: string,
    suggestions: seq<Course>,
    courses: seq<string>,
    dataSheet: seq<Record>,
    timeSlots: seq<string>,
    viewMode: ViewMode)

  /** The initial state of every `useState` hook. */
  function Initial(): (s: State)
    ensures s.courses == [] && s.dataSheet == [] && s.viewMode == List
  {
    State("", [], [], [], [], List)
  }

  /** The tag text of a course: `` `${course.code} - ${course.name}` ``. */
  function CourseText(c: Course): string {
    c.code + " - " + c.name
  }

  /**
   * `handleSelectCourse`: the course's text is appended to `courses` unless it
   * is already there; the input box and the suggestions are cleared either way.
   */
  function SelectCourse(st: State, c: Course): (r: State)
    ensures CourseText(c) in r.courses
    ensures |st.courses| <= |r.courses| <= |st.courses| + 1
    ensures r.courses[..|st.courses|] == st.courses
    ensures CourseText(c) in st.courses ==> r.courses == st.courses
    ensures forall x :: x in r.courses <==> x in st.courses || x == CourseText(c)
    ensures NoDup(st.courses) ==> NoDup(r.courses)
    ensures r.courseInput == "" && r.suggestions == []
    ensures r.dataSheet == st.dataSheet && r.timeSlots == st.timeSlots && r.viewMode == st.viewMode
  {
    var text := CourseText(c);
    var courses := if text !in st.courses then st.courses + [text] else st.courses;
    st.(courses := courses, courseInput := "", suggestions := [])
  }

  /**
   * `handleRemoveCourse`: every occurrence of the tag is dropped, the other
   * tags keep their order and multiplicity, and the fetched sheet and time
   * slots are discarded.
   */
  function RemoveCourse(st: State, course: string): (r: State)
    ensures course !in r.courses
    ensures forall x :: x != course ==> multiset(r.courses)[x] == multiset(st.courses)[x]
    ensures IsSubsequence(r.courses, st.courses)
    ensures NoDup(st.courses) ==> NoDup(r.courses)
    ensures r.dataSheet == [] && r.timeSlots == []
    ensures r.courseInput == st.courseInput && r.suggestions == st.suggestions && r.viewMode == st.viewMode
  {
    var kept := Filter(st.courses, x => x != course);
    FilterSpec(st.courses, x => x != course);
    FilterIsSubsequence(st.courses, x => x != course);
    assert NoDup(st.courses) ==> NoDup(kept) by {
      if NoDup(st.courses) {
        forall x | x in kept ensures multiset(kept)[x] == 1 {
          MultiplicityOfDistinct(st.courses, x);
        }
        DistinctFromMultiplicity(kept);
      }
    }
    st.(courses := kept, dataSheet := [], timeSlots := [])
  }

  lemma {:induction false} MultiplicityOfDistinct<T>(s: seq<T>, x: T)
    requires NoDup(s) && x in s
    ensures multiset(s)[x] == 1
    decreases |s|
  {
    assert s == [s[0]] + s[1..];
    if s[0] == x {
      assert x !in s[1..];
    } else {
      MultiplicityOfDistinct(s[1..], x);
    }
  }

  lemma {:induction false} DistinctFromMultiplicity<T>(s: seq<T>)
    requires forall x :: x in s ==> multiset(s)[x] == 1
    ensures NoDup(s)
    decreases |s|
  {
    if s != [] {
      assert s == [s[0]] + s[1..];
      assert multiset(s)[s[0]] == 1 + multiset(s[1..])[s[0]];
      forall x | x in s[1..] ensures multiset(s[1..])[x] == 1 {
        assert multiset(s)[x] == multiset([s[0]])[x] + multiset(s[1..])[x];
      }
      DistinctFromMultiplicity(s[1..]);
    }
  }

  /**
   * `handleInputChange(query)`: the query is echoed into the input box; under
   * two characters the suggestions are cleared and no request is made. The
   * second result says whether a suggestion request is issued (its answer
   * arrives over the network and is not modelled).
   */
  function InputChange(st: State, query: string): (r: (State, bool))
    ensures r.0.courseInput == query
    ensures r.1 <==> |query| >= 2
    ensures !r.1 ==> r.0.suggestions == []
    ensures r.1 ==> r.0.suggestions == st.suggestions
    ensures r.0.courses == st.courses && r.0.dataSheet == st.dataSheet
    ensures r.0.timeSlots == st.timeSlots && r.0.viewMode == st.viewMode
  {
    if |query| < 2 then (st.(courseInput := query, suggestions := []), false)
    else (st.(courseInput := query), true)
  }

  /** The "Toggle View" button: flips list and grid; it is disabled while no sheet is loaded. */
  function ToggleView(st: State): (r: State)
    ensures |st.dataSheet| > 0 ==> r.viewMode != st.viewMode
    ensures |st.dataSheet| == 0 ==> r == st
    ensures r.(viewMode := st.viewMode) == st
  {
    if |st.dataSheet| == 0 then st
    else st.(viewMode := if st.viewMode == List then Grid else List)
  }

  /** Toggling twice restores the original view. */
  lemma ToggleTwice(st: State)
    ensures ToggleView(ToggleView(st)) == st
  {
  }

  /** `course.split(" - ")[0]`: the course code sent to the backend. */
  function CourseCode(course: string): (code: string)
    ensures Contains(course, " - ") ==> OccursAt(course, " - ", |code|) && code == course[..|code|]
    ensures forall j :: 0 <= j < |code| ==> !OccursAt(course, " - ", j)
    ensures !Contains(course, " - ") <==> code == course
  {
    PrefixBefore(course, " - ")
  }

  /** The `courses=` list that `fetchDataSheet` sends: one code per selected tag, in order. */
  function CourseCodes(courses: seq<string>): (codes: seq<string>)
    ensures |codes| == |courses|
    ensures forall i :: 0 <= i < |courses| ==> codes[i] == CourseCode(courses[i])
  {
    seq(|courses|, i requires 0 <= i < |courses| => CourseCode(courses[i]))
  }

  /**
   * A tag built from a course gives its code back, unless `" - "` occurs in
   * the code or straddles its end (a code ending in `" -"`).
   */
  lemma CourseCodeOfText(c: Course)
    requires !Contains(c.code + " -", " - ")
    ensures CourseCode(CourseText(c)) == c.code
  {
    var s := CourseText(c);
    var ext := c.code + " -";
    assert OccursAt(s, " - ", |c.code|) by {
      assert s[|c.code|..|c.code| + 3] == " - ";
    }
    forall j | 0 <= j < |c.code| ensures !OccursAt(s, " - ", j) {
      assert s[j..j + 3] == ext[j..j + 3];
      assert !OccursAt(ext, " - ", j);
    }
    var code := CourseCode(s);
    assert Contains(s, " - ");
    assert code == s[..|c.code|];
  }
}
