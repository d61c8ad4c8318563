/**
 * client/src/pages/Enrollments.tsx: the enrollment table's role-dependent filtering, the
 * column sort its headers toggle, and its five-row pages.
 */
module EnrollmentsPage {
  import opened Wrappers
  import opened Ordering
  import Seqs
  import Js
  import Paging

  /** A row of GET /enrollments. */
  datatype Enrollment = Enrollment(id: int, studentId: int, courseId: int)

  /** The rows of GET /students and GET /courses the sort looks names up in. */
  datatype Named = Named(id: int, name: string)

  datatype SortConfig = SortConfig(key: string, direction: Direction)

  function Flip(d: Direction): Direction {
    if d == Asc then Desc else Asc
  }

  /** `handleSort(key)`: clicking the sorted column again reverses it; any other column
      starts ascending. */
  function HandleSort(prev: Option<SortConfig>, key: string): (r: SortConfig)
    ensures r.key == key
    ensures prev.Some? && prev.value.key == key ==> r.direction != prev.value.direction
    ensures (prev.None? || prev.value.key != key) ==> r.direction == Asc
  {
    if prev.Some? && prev.value.key == key then SortConfig(key, Flip(prev.value.direction))
    else SortConfig(key, Asc)
  }

  /** Two clicks on the same column restore the order it had. */
  lemma HandleSortTwice(c: SortConfig)
    ensures HandleSort(Some(HandleSort(Some(c), c.key)), c.key) == c
  {
  }

  /** A first click on a column sorts it ascending, a second descending. */
  lemma HandleSortNewColumn(prev: Option<SortConfig>, key: string)
    requires prev.None? || prev.value.key != key
    ensures HandleSort(prev, key) == SortConfig(key, Asc)
    ensures HandleSort(Some(HandleSort(prev, key)), key) == SortConfig(key, Desc)
  {
  }

  /** The conditions `filteredEnrollments` applies: a student sees rows whose student_id is
      strictly equal to their id; only an admin's student filter applies; the course filter
      applies for everyone. */
  predicate Keep(e: Enrollment, role: string, userId: Js.Value, studentFilter: Option<int>, courseFilter: Option<int>) {
    && (role == "student" ==> userId == Js.Num(e.studentId))
    && (role == "admin" && studentFilter.Some? ==> e.studentId == studentFilter.value)
    && (courseFilter.Some? ==> e.courseId == courseFilter.value)
  }

  /** `filteredEnrollments`: the rows `Keep` admits, in their original order, every copy kept. */
  function Filtered(rows: seq<Enrollment>, role: string, userId: Js.Value, studentFilter: Option<int>,
                    courseFilter: Option<int>): (r: seq<Enrollment>)
    ensures r == Seqs.Filter(rows, (e: Enrollment) => Keep(e, role, userId, studentFilter, courseFilter))
    ensures Seqs.IsSubsequence(r, rows)
    ensures forall e :: e in r ==> Keep(e, role, userId, studentFilter, courseFilter)
    ensures forall e :: e in rows && Keep(e, role, userId, studentFilter, courseFilter) ==> e in r
  {
    var own := Seqs.FilterIf(rows, role == "student", (e: Enrollment) => userId == Js.Num(e.studentId));
    var byStudent := Seqs.FilterIf(own, role == "admin" && studentFilter.Some?,
                                   (e: Enrollment) => Some(e.studentId) == studentFilter);
    var byCourse := Seqs.FilterIf(byStudent, courseFilter.Some?, (e: Enrollment) => Some(e.courseId) == courseFilter);
    ChainIsKeep(rows, role, userId, studentFilter, courseFilter);
    Seqs.FilterIsSubsequence(rows, (e: Enrollment) => Keep(e, role, userId, studentFilter, courseFilter));
    byCourse
  }

  /** The three optional stages of `filteredEnrollments`, in the page's order, filter by `Keep`. */
  lemma ChainIsKeep(rows: seq<Enrollment>, role: string, userId: Js.Value, studentFilter: Option<int>,
                    courseFilter: Option<int>)
    ensures var own := Seqs.FilterIf(rows, role == "student", (e: Enrollment) => userId == Js.Num(e.studentId));
      var byStudent := Seqs.FilterIf(own, role == "admin" && studentFilter.Some?,
                                     (e: Enrollment) => Some(e.studentId) == studentFilter);
      Seqs.FilterIf(byStudent, courseFilter.Some?, (e: Enrollment) => Some(e.courseId) == courseFilter)
        == Seqs.Filter(rows, (e: Enrollment) => Keep(e, role, userId, studentFilter, courseFilter))
  {
    var ownOnly := (e: Enrollment) => role == "student" ==> userId == Js.Num(e.studentId);
    var ownStudent := (e: Enrollment) => ownOnly(e) && (role == "admin" && studentFilter.Some? ==> e.studentId == studentFilter.value);
    var own := Seqs.FilterIf(rows, role == "student", (e: Enrollment) => userId == Js.Num(e.studentId));
    Seqs.FilterIfIsFilter(rows, role == "student", (e: Enrollment) => userId == Js.Num(e.studentId), ownOnly);
    var byStudent := Seqs.FilterIf(own, role == "admin" && studentFilter.Some?,
                                   (e: Enrollment) => Some(e.studentId) == studentFilter);
    Seqs.FilterIfThen(own, rows, ownOnly, role == "admin" && studentFilter.Some?,
                      (e: Enrollment) => Some(e.studentId) == studentFilter, ownStudent);
    Seqs.FilterIfThen(byStudent, rows, ownStudent, courseFilter.Some?, (e: Enrollment) => Some(e.courseId) == courseFilter,
                      (e: Enrollment) => Keep(e, role, userId, studentFilter, courseFilter));
  }

  function FindName(named: seq<Named>, id: int): (r: string)
    ensures r != "" ==> exists i :: 0 <= i < |named| && named[i].id == id && named[i].name == r
    ensures (forall i :: 0 <= i < |named| ==> named[i].id != id) ==> r == ""
    ensures forall i :: (0 <= i < |named| && named[i].id == id && forall j :: 0 <= j < i ==> named[j].id != id) ==>
      r == named[i].name
    decreases |named|
  {
    if named == [] then ""
    else if named[0].id == id then named[0].name
    else
      var r := FindName(named[1..], id);
      assert r != "" ==> exists i :: 0 <= i < |named[1..]| && named[1..][i].id == id && named[1..][i].name == r;
      r
  }

  /** The value a column sorts by: the student's name for "student_id", the course's title for
      "course_id" (an unknown one as ""). These are the only columns whose headers sort; any
      other key compares equal. */
  function SortValue(e: Enrollment, key: string, students: seq<Named>, courses: seq<Named>): Key {
    if key == "student_id" then Text(FindName(students, e.studentId))
    else if key == "course_id" then Text(FindName(courses, e.courseId))
    else Absent
  }

  /** The sorted column's value as a sort key. */
  function ColumnKey(c: SortConfig, students: seq<Named>, courses: seq<Named>): Enrollment -> Key {
    e => SortValue(e, c.key, students, courses)
  }

  ghost predicate OrderedBy(r: seq<Enrollment>, c: SortConfig, students: seq<Named>, courses: seq<Named>) {
    forall i, j :: 0 <= i < j < |r| ==>
      !Before(c.direction, SortValue(r[j], c.key, students, courses), SortValue(r[i], c.key, students, courses))
  }

  /** `sortedEnrollments`: unchanged without a sort; otherwise the same rows ordered by the
      sorted column in its direction. */
  function Sorted(filtered: seq<Enrollment>, config: Option<SortConfig>, students: seq<Named>, courses: seq<Named>)
    : (r: seq<Enrollment>)
    ensures config.None? ==> r == filtered
    ensures multiset(r) == multiset(filtered)
    ensures config.Some? ==> OrderedBy(r, config.value, students, courses)
  {
    match config
    case None => filtered
    case Some(c) =>
      var key := ColumnKey(c, students, courses);
      var r := SortBy(filtered, key, c.direction);
      assert OrderedBy(r, c, students, courses) by {
        assert forall k :: 0 <= k < |r| ==> key(r[k]) == SortValue(r[k], c.key, students, courses);
      }
      r
  }

  /** `Array.prototype.sort` is stable: rows with the same value in the sorted column (the same
      student name, say) keep the order they had in the filtered list. */
  lemma SortedStable(filtered: seq<Enrollment>, c: SortConfig, students: seq<Named>, courses: seq<Named>, v: Key)
    ensures Seqs.Filter(Sorted(filtered, Some(c), students, courses), HasKey(ColumnKey(c, students, courses), v))
      == Seqs.Filter(filtered, HasKey(ColumnKey(c, students, courses), v))
  {
    SortByStable(filtered, ColumnKey(c, students, courses), c.direction, v);
  }

  /** `totalPages` and `paginatedEnrollments` on page `currentPage`. */
  function Paginated(sorted: seq<Enrollment>, currentPage: int): (r: (nat, seq<Enrollment>))
    ensures r.0 == 0 <==> sorted == []
    ensures r.0 * Paging.PageSize >= |sorted| && (r.0 == 0 || (r.0 - 1) * Paging.PageSize < |sorted|)
    ensures |r.1| <= Paging.PageSize
    ensures 1 <= currentPage ==> (r.1 != [] <==> currentPage <= r.0)
    ensures 1 <= currentPage ==> r.1 == Paging.Page(sorted, currentPage - 1)
  {
    (Paging.TotalPages(|sorted|), Paging.Current(sorted, currentPage))
  }
}
