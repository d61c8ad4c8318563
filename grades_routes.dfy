/**
 * server/routes/grades.ts: every authenticated caller lists grades (an admin all of them, anyone
 * else their own); only an admin creates, replaces or deletes one.
 */
module GradesRoutes {
  import opened Wrappers
  import opened Tables
  import opened Db
  import opened Http
  import opened Ordering
  import Seqs
  import Auth

  /** A row of GET /: the student columns are present only in the admin's listing. */
  datatype View = View(id: int, studentId: Option<int>, studentName: Option<string>, courseId: Option<int>,
                       courseTitle: string, grade: real, gradeType: string, createdAt: int)

  function CreatedKey(v: View): Key {
    Num(v.createdAt)
  }

  /** `grades g JOIN students s ON g.student_id = s.id JOIN users u ON s.user_id = u.id
      JOIN courses c ON g.course_id = c.id`, for one grade. */
  function AdminJoin(g: Row<Grade>, students: seq<Row<Student>>, users: seq<Row<User>>, courses: seq<Row<Course>>)
    : (r: Option<View>)
    ensures r.Some? <==>
      && FindId(students, g.cols.studentId).Some?
      && FindId(users, FindId(students, g.cols.studentId).value.cols.userId).Some?
      && FindId(courses, g.cols.courseId).Some?
    ensures r.Some? ==>
      && r.value.id == g.id && r.value.studentId == Some(g.cols.studentId)
      && r.value.courseId == Some(g.cols.courseId) && r.value.grade == g.cols.grade
      && r.value.gradeType == g.cols.gradeType && r.value.createdAt == g.cols.createdAt
      && r.value.studentName == Some(FindId(users, FindId(students, g.cols.studentId).value.cols.userId).value.cols.name)
      && r.value.courseTitle == FindId(courses, g.cols.courseId).value.cols.title
  {
    match FindId(students, g.cols.studentId)
    case None => None
    case Some(s) =>
      match (FindId(users, s.cols.userId), FindId(courses, g.cols.courseId))
      case (Some(u), Some(c)) =>
        Some(View(g.id, Some(g.cols.studentId), Some(u.cols.name), Some(g.cols.courseId), c.cols.title,
                  g.cols.grade, g.cols.gradeType, g.cols.createdAt))
      case _ => None
  }

  /** `grades g JOIN students s ... JOIN courses c ... WHERE s.user_id = $1`, for one grade. */
  function OwnJoin(g: Row<Grade>, userId: int, students: seq<Row<Student>>, courses: seq<Row<Course>>)
    : (r: Option<View>)
    ensures r.Some? <==>
      && FindId(students, g.cols.studentId).Some?
      && FindId(students, g.cols.studentId).value.cols.userId == userId
      && FindId(courses, g.cols.courseId).Some?
    ensures r.Some? ==>
      && r.value.id == g.id && r.value.studentId.None? && r.value.studentName.None? && r.value.courseId.None?
      && r.value.grade == g.cols.grade && r.value.gradeType == g.cols.gradeType
      && r.value.createdAt == g.cols.createdAt
      && r.value.courseTitle == FindId(courses, g.cols.courseId).value.cols.title
  {
    match (FindId(students, g.cols.studentId), FindId(courses, g.cols.courseId))
    case (Some(s), Some(c)) =>
      if s.cols.userId != userId then None
      else Some(View(g.id, None, None, None, c.cols.title, g.cols.grade, g.cols.gradeType, g.cols.createdAt))
    case _ => None
  }

  function AdminViews(grades: seq<Row<Grade>>, students: seq<Row<Student>>, users: seq<Row<User>>,
                      courses: seq<Row<Course>>): (r: seq<View>)
    ensures forall i :: 0 <= i < |grades| && AdminJoin(grades[i], students, users, courses).Some? ==>
      AdminJoin(grades[i], students, users, courses).value in r
    ensures forall j :: 0 <= j < |r| ==>
      exists i :: 0 <= i < |grades| && AdminJoin(grades[i], students, users, courses) == Some(r[j])
  {
    Seqs.FilterMap(grades, g => AdminJoin(g, students, users, courses))
  }

  function OwnViews(grades: seq<Row<Grade>>, userId: int, students: seq<Row<Student>>,
                    courses: seq<Row<Course>>): (r: seq<View>)
    ensures forall i :: 0 <= i < |grades| && OwnJoin(grades[i], userId, students, courses).Some? ==>
      OwnJoin(grades[i], userId, students, courses).value in r
    ensures forall j :: 0 <= j < |r| ==>
      exists i :: 0 <= i < |grades| && OwnJoin(grades[i], userId, students, courses) == Some(r[j])
  {
    Seqs.FilterMap(grades, g => OwnJoin(g, userId, students, courses))
  }

  /** GET /: newest first. An admin gets every grade whose student, user and course exist; any
      other caller only the grades of the student profile that belongs to their account. */
  function List(db: Store, caller: Auth.Payload): (r: seq<View>)
    reads db
    ensures SortedBy(r, CreatedKey, Desc)
    ensures caller.role == Auth.AdminRole ==> multiset(r) == multiset(AdminViews(db.grades, db.students, db.users, db.courses))
    ensures caller.role != Auth.AdminRole ==> multiset(r) == multiset(OwnViews(db.grades, caller.id, db.students, db.courses))
  {
    var joined :=
      if caller.role == Auth.AdminRole then AdminViews(db.grades, db.students, db.users, db.courses)
      else OwnViews(db.grades, caller.id, db.students, db.courses);
    SortBy(joined, CreatedKey, Desc)
  }

  /** A non-admin's listing holds only grades of students whose account is the caller's. */
  lemma OwnGradesOnly(db: Store, caller: Auth.Payload, j: nat)
    requires caller.role != Auth.AdminRole && j < |List(db, caller)|
    ensures exists i :: (&& 0 <= i < |db.grades| && db.grades[i].id == List(db, caller)[j].id
                         && FindId(db.students, db.grades[i].cols.studentId).Some?
                         && FindId(db.students, db.grades[i].cols.studentId).value.cols.userId == caller.id)
  {
    var own := OwnViews(db.grades, caller.id, db.students, db.courses);
    SameElements(List(db, caller), own);
    var k :| 0 <= k < |own| && own[k] == List(db, caller)[j];
    var i :| 0 <= i < |db.grades| && OwnJoin(db.grades[i], caller.id, db.students, db.courses) == Some(own[k]);
  }

  /** The columns of a POST or PUT body. */
  datatype GradeInput = GradeInput(studentId: int, courseId: int, grade: real, gradeType: string)

  /** POST / (admin only): always adds a new row, even for a (student, course) pair that
      already has a grade; answers 201 with it. `now` is the `created_at` default. */
  method Create(db: Store, caller: Auth.Payload, input: GradeInput, now: int) returns (reply: Reply<Row<Grade>>)
    requires db.Valid()
    modifies db`grades, db`nextGradeId
    ensures db.Valid()
    ensures caller.role != Auth.AdminRole ==>
      reply == Fail(Forbidden, "admins only") && db.grades == old(db.grades) && db.nextGradeId == old(db.nextGradeId)
    ensures caller.role == Auth.AdminRole ==>
      var row := Row(old(db.nextGradeId), Grade(input.studentId, input.courseId, input.grade, input.gradeType, now));
      && db.grades == old(db.grades) + [row] && db.nextGradeId == old(db.nextGradeId) + 1
      && reply == Reply(Created, Json(row))
  {
    var gate := Auth.IsAdmin(Some(caller));
    if gate.Refuse? {
      return Fail(gate.status, gate.message);
    }
    var row := Row(db.nextGradeId, Grade(input.studentId, input.courseId, input.grade, input.gradeType, now));
    db.grades := Tables.Insert(db.grades, db.nextGradeId, row.cols);
    db.nextGradeId := db.nextGradeId + 1;
    reply := Reply(Created, Json(row));
  }

  /** The columns a PUT writes: all four given ones; `created_at` stays. */
  function Replace(g: Grade, input: GradeInput): Grade
  {
    Grade(input.studentId, input.courseId, input.grade, input.gradeType, g.createdAt)
  }

  /** A PUT keeps the creation time, and repeating it changes nothing more. */
  lemma ReplaceIdempotent(g: Grade, input: GradeInput)
    ensures Replace(g, input).createdAt == g.createdAt
    ensures Replace(Replace(g, input), input) == Replace(g, input)
  {
  }

  /** Two identical PUTs to one grade leave the table as one does. */
  lemma PutTwice(rows: seq<Row<Grade>>, id: int, input: GradeInput)
    ensures var put := (g: Grade) => Replace(g, input);
      SetId(SetId(rows, id, put), id, put) == SetId(rows, id, put)
  {
    var put := (g: Grade) => Replace(g, input);
    forall g ensures put(put(g)) == put(g) {
      ReplaceIdempotent(g, input);
    }
    SetIdTwice(rows, id, put);
  }

  /** PUT /:id (admin only): replaces grade, grade_type, student_id and course_id of the row;
      404 and no change when there is none. */
  method Update(db: Store, caller: Auth.Payload, id: int, input: GradeInput) returns (reply: Reply<Row<Grade>>)
    requires db.Valid()
    modifies db`grades
    ensures db.Valid()
    ensures caller.role != Auth.AdminRole ==> reply == Fail(Forbidden, "admins only") && db.grades == old(db.grades)
    ensures caller.role == Auth.AdminRole && FindId(old(db.grades), id).None? ==>
      reply == Fail(NotFound, "No encontrado") && db.grades == old(db.grades)
    ensures caller.role == Auth.AdminRole && FindId(old(db.grades), id).Some? ==>
      var updated := Row(id, Replace(FindId(old(db.grades), id).value.cols, input));
      && |db.grades| == |old(db.grades)|
      && (forall i :: 0 <= i < |db.grades| && old(db.grades)[i].id != id ==> db.grades[i] == old(db.grades)[i])
      && (forall i :: 0 <= i < |db.grades| && old(db.grades)[i].id == id ==> db.grades[i] == updated)
      && reply == Reply(Success, Json(updated))
  {
    var gate := Auth.IsAdmin(Some(caller));
    if gate.Refuse? {
      return Fail(gate.status, gate.message);
    }
    var found := FindId(db.grades, id);
    if found.None? {
      return Fail(NotFound, "No encontrado");
    }
    forall i | 0 <= i < |db.grades| && db.grades[i].id == id ensures db.grades[i] == found.value {
      FindIdUnique(db.grades, db.nextGradeId, id, i);
    }
    db.grades := SetId(db.grades, id, (g: Grade) => Replace(g, input));
    reply := Reply(Success, Json(Row(id, Replace(found.value.cols, input))));
  }

  /** DELETE /:id (admin only): removes the row if there is one and reports success either way. */
  method Delete(db: Store, caller: Auth.Payload, id: int) returns (reply: Reply<Row<Grade>>)
    requires db.Valid()
    modifies db`grades
    ensures db.Valid()
    ensures caller.role != Auth.AdminRole ==> reply == Fail(Forbidden, "admins only") && db.grades == old(db.grades)
    ensures caller.role == Auth.AdminRole ==>
      reply == Reply(Success, Message("Calificación eliminada")) && db.grades == DeleteId(old(db.grades), id)
  {
    var gate := Auth.IsAdmin(Some(caller));
    if gate.Refuse? {
      return Fail(gate.status, gate.message);
    }
    DeleteIdKeyed(db.grades, db.nextGradeId, id);
    db.grades := DeleteId(db.grades, id);
    reply := Reply(Success, Message("Calificación eliminada"));
  }
}
