/**
 * server/routes/attendance.ts: POST records one attendance mark with an upsert on
 * (student_id, course_id, date); GET lists marks scoped by the caller's role.
 */
module AttendanceRoutes {
  import opened Wrappers
  import opened Tables
  import opened Db
  import opened Http
  import opened Ordering
  import Seqs
  import Js
  import Auth

  /** A validated submission: the target student, the numeric course id, date and status. */
  datatype Submission = Submission(studentId: int, courseId: int, date: string, status: string)

  /** The student a mark is for: the caller when the caller is a student, whatever the body
      says; otherwise `Number(student_id ?? 0)`. None is NaN. */
  function TargetStudent(caller: Auth.Payload, studentId: Js.Value): (r: Option<int>)
    ensures caller.role == Auth.StudentRole ==> r == Some(caller.id)
    ensures caller.role != Auth.StudentRole && (studentId.Undefined? || studentId.Null?) ==> r == Some(0)
    ensures caller.role != Auth.StudentRole && !studentId.Undefined? && !studentId.Null? ==>
      r == Js.ToNumber(studentId)
  {
    if caller.role == Auth.StudentRole then Some(caller.id)
    else Js.ToNumber(if studentId.Undefined? || studentId.Null? then Js.Num(0) else studentId)
  }

  /** The checks of the POST handler, in their order. */
  function Validate(caller: Auth.Payload, studentId: Js.Value, courseId: Js.Value,
                    date: Option<string>, status: Option<string>): (r: Result<Submission>)
    ensures !Js.Truthy(courseId) || !Js.Present(date) || !Js.Present(status) ==>
      r == Err("Missing required fields")
    ensures (&& Js.Truthy(courseId) && Js.Present(date) && Js.Present(status)
             && (TargetStudent(caller, studentId) == None || TargetStudent(caller, studentId) == Some(0))) ==>
      r == Err("Student ID required")
    ensures (&& Js.Truthy(courseId) && Js.Present(date) && Js.Present(status)
             && TargetStudent(caller, studentId).Some? && TargetStudent(caller, studentId) != Some(0)
             && Js.ToNumber(courseId).None?) ==>
      r == Err("Invalid course ID")
    ensures r.Err? ==> r.error in {"Missing required fields", "Student ID required", "Invalid course ID"}
    ensures r.Ok? <==>
      (&& Js.Truthy(courseId) && Js.Present(date) && Js.Present(status)
       && TargetStudent(caller, studentId).Some? && TargetStudent(caller, studentId) != Some(0)
       && Js.ToNumber(courseId).Some?)
    ensures r.Ok? ==>
      && Some(r.value.studentId) == TargetStudent(caller, studentId) && r.value.studentId != 0
      && Some(r.value.courseId) == Js.ToNumber(courseId)
      && Some(r.value.date) == date && Some(r.value.status) == status
    ensures r.Ok? && caller.role == Auth.StudentRole ==> r.value.studentId == caller.id
  {
    if !Js.Truthy(courseId) || !Js.Present(date) || !Js.Present(status) then
      Err("Missing required fields")
    else
      var target := TargetStudent(caller, studentId);
      if target.None? || target.value == 0 then Err("Student ID required")
      else
        var course := Js.ToNumber(courseId);
        if course.None? then Err("Invalid course ID")
        else Ok(Submission(target.value, course.value, date.value, status.value))
  }

  function KeyOfSubmission(s: Submission): AttendanceKey {
    AttendanceKey(s.studentId, s.courseId, s.date)
  }

  /** The first row with the given key, by position. */
  function KeyIndex(rows: seq<Row<Attendance>>, key: AttendanceKey): (r: Option<nat>)
    ensures r.Some? ==> r.value < |rows| && KeyOf(rows[r.value]) == key
    ensures r.None? <==> forall i :: 0 <= i < |rows| ==> KeyOf(rows[i]) != key
    decreases |rows|
  {
    if rows == [] then None
    else if KeyOf(rows[0]) == key then Some(0)
    else match KeyIndex(rows[1..], key)
      case None => None
      case Some(i) => Some(i + 1)
  }

  /** `INSERT ... ON CONFLICT (student_id, course_id, date) DO UPDATE SET status = EXCLUDED.status
      RETURNING ...`: overwrites the status of the row with the key, keeping its id, or appends
      a row with the serial's next id. Returns the new table and the stored row. */
  function Upsert(rows: seq<Row<Attendance>>, next: int, s: Submission): (r: (seq<Row<Attendance>>, Row<Attendance>))
    ensures r.1.cols == Attendance(s.studentId, s.courseId, s.date, s.status)
    ensures r.1 in r.0
    ensures forall i :: 0 <= i < |rows| && KeyOf(rows[i]) != KeyOfSubmission(s) ==> rows[i] in r.0
    ensures forall i :: 0 <= i < |r.0| && r.0[i] != r.1 ==> r.0[i] in rows
    ensures KeyIndex(rows, KeyOfSubmission(s)).None? ==> r.0 == rows + [r.1] && r.1.id == next
    ensures KeyIndex(rows, KeyOfSubmission(s)).Some? ==>
      |r.0| == |rows| && r.1.id == rows[KeyIndex(rows, KeyOfSubmission(s)).value].id
    ensures UniqueKeys(rows) ==> UniqueKeys(r.0)
    ensures UniqueKeys(rows) ==>
      forall i :: 0 <= i < |r.0| && KeyOf(r.0[i]) == KeyOfSubmission(s) ==> r.0[i] == r.1
    ensures Keyed(rows, next) && 1 <= next ==> Keyed(r.0, next + 1)
  {
    var cols := Attendance(s.studentId, s.courseId, s.date, s.status);
    match KeyIndex(rows, KeyOfSubmission(s))
    case None =>
      var row := Row(next, cols);
      (rows + [row], row)
    case Some(i) =>
      var row := Row(rows[i].id, cols);
      var t := rows[i := row];
      ReplaceKeepsKeys(rows, t, next, i);
      (t, row)
  }

  /** Overwriting row `i` with a row of the same id and key keeps both constraints. */
  lemma ReplaceKeepsKeys(rows: seq<Row<Attendance>>, t: seq<Row<Attendance>>, next: int, i: nat)
    requires i < |rows| && |t| == |rows| && t[i].id == rows[i].id && KeyOf(t[i]) == KeyOf(rows[i])
    requires forall j :: 0 <= j < |rows| && j != i ==> t[j] == rows[j]
    ensures UniqueKeys(rows) ==> UniqueKeys(t)
    ensures UniqueKeys(rows) ==> forall j :: 0 <= j < |t| && j != i ==> KeyOf(t[j]) != KeyOf(t[i])
    ensures Keyed(rows, next) ==> Keyed(t, next + 1)
  {
    assert forall j :: 0 <= j < |rows| ==> t[j].id == rows[j].id && KeyOf(t[j]) == KeyOf(rows[j]);
  }

  lemma {:induction false} KeyIndexAppend(rows: seq<Row<Attendance>>, row: Row<Attendance>, key: AttendanceKey)
    requires KeyIndex(rows, key).None? && KeyOf(row) == key
    ensures KeyIndex(rows + [row], key) == Some(|rows|)
    decreases |rows|
  {
    if rows == [] {
      assert KeyIndex([row], key) == Some(0);
    } else {
      assert (rows + [row])[0] == rows[0] && KeyOf(rows[0]) != key;
      assert (rows + [row])[1..] == rows[1..] + [row];
      assert KeyIndex(rows[1..], key).None? by {
        assert forall i :: 0 <= i < |rows[1..]| ==> rows[1..][i] == rows[i + 1];
      }
      KeyIndexAppend(rows[1..], row, key);
    }
  }

  /** Submitting the same mark again changes nothing. */
  lemma UpsertIdempotent(rows: seq<Row<Attendance>>, n: int, m: int, s: Submission)
    requires UniqueKeys(rows)
    ensures Upsert(Upsert(rows, n, s).0, m, s) == Upsert(rows, n, s)
  {
    var (t, row) := Upsert(rows, n, s);
    var i := KeyIndex(t, KeyOfSubmission(s));
    assert KeyOf(row) == KeyOfSubmission(s);
    assert i.Some?;
    assert t[i.value] == row;
    assert t[i.value := row] == t;
  }

  /** Of two submissions for one key, the later status wins and one row remains. */
  lemma UpsertLastWins(rows: seq<Row<Attendance>>, n: int, m: int, s1: Submission, s2: Submission)
    requires UniqueKeys(rows)
    requires KeyOfSubmission(s1) == KeyOfSubmission(s2)
    ensures Upsert(Upsert(rows, n, s1).0, m, s2) == Upsert(rows, n, s2)
  {
    var key := KeyOfSubmission(s1);
    var (t, row) := Upsert(rows, n, s1);
    assert KeyOf(row) == key;
    var i := KeyIndex(t, key).value;
    assert t[i] == row;
    match KeyIndex(rows, key)
    case None =>
      assert t == rows + [row];
      KeyIndexAppend(rows, row, key);
      var row2 := Row(n, Attendance(s2.studentId, s2.courseId, s2.date, s2.status));
      assert t[|rows| := row2] == rows + [row2];
    case Some(k) =>
      assert t == rows[k := row];
      assert i == k;
      var row2 := Row(rows[k].id, Attendance(s2.studentId, s2.courseId, s2.date, s2.status));
      assert t[k := row2] == rows[k := row2];
  }

  /** POST /: validates the body; on success upserts and answers 201 with the stored row. */
  method Post(db: Store, caller: Auth.Payload, studentId: Js.Value, courseId: Js.Value,
              date: Option<string>, status: Option<string>) returns (reply: Reply<Row<Attendance>>)
    requires db.Valid()
    modifies db`attendance, db`nextAttendanceId
    ensures db.Valid()
    ensures var v := Validate(caller, studentId, courseId, date, status);
      && (v.Err? ==> reply == Fail(BadRequest, v.error)
                     && db.attendance == old(db.attendance) && db.nextAttendanceId == old(db.nextAttendanceId))
      && (v.Ok? ==> var up := Upsert(old(db.attendance), old(db.nextAttendanceId), v.value);
                    && db.attendance == up.0 && reply == Reply(Created, Json(up.1))
                    && db.nextAttendanceId == old(db.nextAttendanceId) + 1)
  {
    var v := Validate(caller, studentId, courseId, date, status);
    if v.Err? {
      return Fail(BadRequest, v.error);
    }
    var up := Upsert(db.attendance, db.nextAttendanceId, v.value);
    db.SetAttendance(up.0, db.nextAttendanceId + 1);
    reply := Reply(Created, Json(up.1));
  }

  /** A mark as GET returns it; `student` (the student's name) is present only for an admin. */
  datatype View = View(id: int, studentId: int, student: Option<string>, courseId: int,
                       course: string, date: string, status: string)

  function DateKey(v: View): Key {
    Text(v.date)
  }

  /** The attendance row a view was built from. */
  function Source(v: View): Row<Attendance> {
    Row(v.id, Attendance(v.studentId, v.courseId, v.date, v.status))
  }

  /** One row of the admin query: the mark joined with its student's user row and its course. */
  function AdminJoin(a: Row<Attendance>, users: seq<Row<User>>, courses: seq<Row<Course>>): (r: Option<View>)
    ensures r.Some? <==> FindId(users, a.cols.studentId).Some? && FindId(courses, a.cols.courseId).Some?
    ensures r.Some? ==> Source(r.value) == a && r.value.student == Some(FindId(users, a.cols.studentId).value.cols.name)
                        && r.value.course == FindId(courses, a.cols.courseId).value.cols.title
  {
    match (FindId(users, a.cols.studentId), FindId(courses, a.cols.courseId))
    case (Some(u), Some(c)) =>
      Some(View(a.id, a.cols.studentId, Some(u.cols.name), a.cols.courseId, c.cols.title, a.cols.date, a.cols.status))
    case _ => None
  }

  /** One row of the student query: the caller's own mark joined with its course. */
  function StudentJoin(a: Row<Attendance>, userId: int, courses: seq<Row<Course>>): (r: Option<View>)
    ensures r.Some? <==> a.cols.studentId == userId && FindId(courses, a.cols.courseId).Some?
    ensures r.Some? ==> Source(r.value) == a && r.value.student.None?
                        && r.value.course == FindId(courses, a.cols.courseId).value.cols.title
  {
    if a.cols.studentId != userId then None
    else match FindId(courses, a.cols.courseId)
      case Some(c) => Some(View(a.id, a.cols.studentId, None, a.cols.courseId, c.cols.title, a.cols.date, a.cols.status))
      case None => None
  }

  /** `FROM attendance a JOIN users u ... JOIN courses c ...`, in storage order. */
  function AdminViews(rows: seq<Row<Attendance>>, users: seq<Row<User>>, courses: seq<Row<Course>>): (r: seq<View>)
    ensures forall i :: 0 <= i < |rows| && AdminJoin(rows[i], users, courses).Some? ==>
      AdminJoin(rows[i], users, courses).value in r
    ensures forall j :: 0 <= j < |r| ==> Source(r[j]) in rows && AdminJoin(Source(r[j]), users, courses) == Some(r[j])
  {
    Seqs.FilterMap(rows, a => AdminJoin(a, users, courses))
  }

  /** `FROM attendance a JOIN courses c ... WHERE a.student_id = $1`, in storage order. */
  function StudentViews(rows: seq<Row<Attendance>>, userId: int, courses: seq<Row<Course>>): (r: seq<View>)
    ensures forall i :: 0 <= i < |rows| && StudentJoin(rows[i], userId, courses).Some? ==>
      StudentJoin(rows[i], userId, courses).value in r
    ensures forall j :: 0 <= j < |r| ==> Source(r[j]) in rows && StudentJoin(Source(r[j]), userId, courses) == Some(r[j])
  {
    Seqs.FilterMap(rows, a => StudentJoin(a, userId, courses))
  }

  /** GET /: an admin sees every mark whose student and course exist, with the student's name;
      a student sees their own marks; newest date first. Any other role is refused. */
  function List(db: Store, caller: Auth.Payload): (r: Reply<seq<View>>)
    reads db
    ensures caller.role != Auth.AdminRole && caller.role != Auth.StudentRole ==> r == Fail(Forbidden, "Forbidden")
    ensures caller.role == Auth.AdminRole || caller.role == Auth.StudentRole ==> r.status == Success && r.body.Json?
    ensures r.body.Json? ==> SortedBy(r.body.value, DateKey, Desc)
    ensures r.body.Json? && caller.role == Auth.AdminRole ==>
      multiset(r.body.value) == multiset(AdminViews(db.attendance, db.users, db.courses))
    ensures r.body.Json? && caller.role == Auth.StudentRole ==>
      multiset(r.body.value) == multiset(StudentViews(db.attendance, caller.id, db.courses))
    ensures r.body.Json? && caller.role == Auth.AdminRole ==>
      && (forall i :: 0 <= i < |db.attendance| && AdminJoin(db.attendance[i], db.users, db.courses).Some? ==>
            AdminJoin(db.attendance[i], db.users, db.courses).value in r.body.value)
      && (forall v :: v in r.body.value ==> Source(v) in db.attendance && AdminJoin(Source(v), db.users, db.courses) == Some(v))
    ensures r.body.Json? && caller.role == Auth.StudentRole ==>
      && (forall i :: 0 <= i < |db.attendance| && StudentJoin(db.attendance[i], caller.id, db.courses).Some? ==>
            StudentJoin(db.attendance[i], caller.id, db.courses).value in r.body.value)
      && (forall v :: v in r.body.value ==> Source(v) in db.attendance && StudentJoin(Source(v), caller.id, db.courses) == Some(v))
  {
    if caller.role == Auth.AdminRole then
      var joined := AdminViews(db.attendance, db.users, db.courses);
      var sorted := SortBy(joined, DateKey, Desc);
      SameElements(joined, sorted);
      Reply(Success, Json(sorted))
    else if caller.role == Auth.StudentRole then
      var joined := StudentViews(db.attendance, caller.id, db.courses);
      var sorted := SortBy(joined, DateKey, Desc);
      SameElements(joined, sorted);
      Reply(Success, Json(sorted))
    else Fail(Forbidden, "Forbidden")
  }

  /** The conflict key of the mark a view shows. */
  function MarkKey(v: View): AttendanceKey {
    KeyOf(Source(v))
  }

  /** Under the UNIQUE constraint the joined marks have pairwise distinct keys. */
  lemma AdminViewsDistinct(rows: seq<Row<Attendance>>, users: seq<Row<User>>, courses: seq<Row<Course>>)
    requires UniqueKeys(rows)
    ensures Seqs.DistinctBy(AdminViews(rows, users, courses), MarkKey)
  {
    Seqs.FilterMapDistinct(rows, a => AdminJoin(a, users, courses), KeyOf, MarkKey);
  }

  lemma StudentViewsDistinct(rows: seq<Row<Attendance>>, userId: int, courses: seq<Row<Course>>)
    requires UniqueKeys(rows)
    ensures Seqs.DistinctBy(StudentViews(rows, userId, courses), MarkKey)
  {
    Seqs.FilterMapDistinct(rows, a => StudentJoin(a, userId, courses), KeyOf, MarkKey);
  }

  /** Under `UNIQUE (student_id, course_id, date)` the GET lists at most one mark per student,
      course and date, for either role; with `UpsertLastWins` a repeated POST for one key
      therefore leaves one listed mark. */
  lemma OneMarkPerKey(db: Store, caller: Auth.Payload)
    requires db.Valid()
    ensures var r := List(db, caller);
      r.body.Json? ==> forall j, k :: 0 <= j < k < |r.body.value| ==>
        KeyOf(Source(r.body.value[j])) != KeyOf(Source(r.body.value[k]))
  {
    var r := List(db, caller);
    if caller.role == Auth.AdminRole {
      AdminViewsDistinct(db.attendance, db.users, db.courses);
      Seqs.PermutationKeepsDistinct(r.body.value, AdminViews(db.attendance, db.users, db.courses), MarkKey);
    } else if caller.role == Auth.StudentRole {
      StudentViewsDistinct(db.attendance, caller.id, db.courses);
      Seqs.PermutationKeepsDistinct(r.body.value, StudentViews(db.attendance, caller.id, db.courses), MarkKey);
    }
  }
}
