/**
 * server/routes/courses.ts: every authenticated caller lists courses with their teacher; only an
 * admin creates, replaces or deletes one.
 */
module CoursesRoutes {
  import opened Wrappers
  import opened Tables
  import opened Db
  import opened Http
  import opened Ordering
  import Seqs
  import Js
  import Auth

  /** A row of GET /: the course and its teacher's name and email. */
  datatype View = View(id: int, title: string, teacherId: int, createdAt: int, teacherName: string, teacherEmail: string)

  function IdKey(v: View): Key {
    Num(v.id)
  }

  /** `courses c JOIN teachers t ON c.teacher_id = t.id JOIN users u ON t.user_id = u.id`, for
      one course; a NULL teacher_id joins nothing. */
  function Join(c: Row<Course>, teachers: seq<Row<Teacher>>, users: seq<Row<User>>): (r: Option<View>)
    ensures r.Some? <==>
      && c.cols.teacherId.Some? && FindId(teachers, c.cols.teacherId.value).Some?
      && FindId(users, FindId(teachers, c.cols.teacherId.value).value.cols.userId).Some?
    ensures r.Some? ==>
      && r.value.id == c.id && r.value.title == c.cols.title && Some(r.value.teacherId) == c.cols.teacherId
      && r.value.createdAt == c.cols.createdAt
    ensures r.Some? ==>
      var u := FindId(users, FindId(teachers, c.cols.teacherId.value).value.cols.userId).value;
      r.value.teacherName == u.cols.name && r.value.teacherEmail == u.cols.email
  {
    match c.cols.teacherId
    case None => None
    case Some(tid) =>
      match FindId(teachers, tid)
      case None => None
      case Some(t) =>
        match FindId(users, t.cols.userId)
        case None => None
        case Some(u) => Some(View(c.id, c.cols.title, tid, c.cols.createdAt, u.cols.name, u.cols.email))
  }

  /** The join over all courses, in storage order. */
  function Joined(courses: seq<Row<Course>>, teachers: seq<Row<Teacher>>, users: seq<Row<User>>): (r: seq<View>)
    ensures forall i :: 0 <= i < |courses| && Join(courses[i], teachers, users).Some? ==>
      Join(courses[i], teachers, users).value in r
    ensures forall j :: 0 <= j < |r| ==>
      exists i :: 0 <= i < |courses| && Join(courses[i], teachers, users) == Some(r[j])
  {
    Seqs.FilterMap(courses, c => Join(c, teachers, users))
  }

  /** GET /: the joined courses by id ascending; a course without a matching teacher and user
      is left out. */
  function List(db: Store): (r: seq<View>)
    reads db
    ensures SortedBy(r, IdKey, Asc)
    ensures multiset(r) == multiset(Joined(db.courses, db.teachers, db.users))
  {
    SortBy(Joined(db.courses, db.teachers, db.users), IdKey, Asc)
  }

  /** A course that joins nothing contributes no view to the join of a keyed table. */
  lemma HiddenFromJoined(courses: seq<Row<Course>>, next: int, teachers: seq<Row<Teacher>>, users: seq<Row<User>>, i: nat)
    requires i < |courses| && Keyed(courses, next)
    requires Join(courses[i], teachers, users).None?
    ensures forall k :: 0 <= k < |Joined(courses, teachers, users)| ==> Joined(courses, teachers, users)[k].id != courses[i].id
  {
    var joined := Joined(courses, teachers, users);
    forall k | 0 <= k < |joined| ensures joined[k].id != courses[i].id {
      var i' :| 0 <= i' < |courses| && Join(courses[i'], teachers, users) == Some(joined[k]);
      assert courses[i'].id == joined[k].id;
      assert i' != i;
    }
  }

  /** A course whose teacher_id matches no teacher is not listed. */
  lemma UnassignedCourseHidden(db: Store, i: nat)
    requires i < |db.courses|
    requires db.courses[i].cols.teacherId.None? || FindId(db.teachers, db.courses[i].cols.teacherId.value).None?
    requires Keyed(db.courses, db.nextCourseId)
    ensures forall j :: 0 <= j < |List(db)| ==> List(db)[j].id != db.courses[i].id
  {
    var joined := Joined(db.courses, db.teachers, db.users);
    var list := List(db);
    HiddenFromJoined(db.courses, db.nextCourseId, db.teachers, db.users, i);
    SameElements(list, joined);
    forall j | 0 <= j < |list| ensures list[j].id != db.courses[i].id {
      var k :| 0 <= k < |joined| && joined[k] == list[j];
    }
  }

  /** `!title || !teacher_id`. */
  predicate Missing(title: Option<string>, teacherId: Option<int>) {
    !Js.Present(title) || teacherId.None? || teacherId.value == 0
  }

  /** POST / (admin only): 400 unless both a title and a non-zero teacher_id are given;
      otherwise adds one course and answers with it. `now` is the `created_at` default. */
  method Create(db: Store, caller: Auth.Payload, title: Option<string>, teacherId: Option<int>, now: int)
    returns (reply: Reply<Row<Course>>)
    requires db.Valid()
    modifies db`courses, db`nextCourseId
    ensures db.Valid()
    ensures caller.role != Auth.AdminRole ==> reply == Fail(Forbidden, "admins only")
    ensures caller.role == Auth.AdminRole && Missing(title, teacherId) ==>
      reply == Fail(BadRequest, "title y teacher_id son requeridos")
    ensures caller.role != Auth.AdminRole || Missing(title, teacherId) ==>
      db.courses == old(db.courses) && db.nextCourseId == old(db.nextCourseId)
    ensures caller.role == Auth.AdminRole && !Missing(title, teacherId) ==>
      var row := Row(old(db.nextCourseId), Course(title.value, teacherId, now));
      && db.courses == old(db.courses) + [row] && db.nextCourseId == old(db.nextCourseId) + 1
      && reply == Reply(Success, Json(row))
  {
    var gate := Auth.IsAdmin(Some(caller));
    if gate.Refuse? {
      return Fail(gate.status, gate.message);
    }
    if Missing(title, teacherId) {
      return Fail(BadRequest, "title y teacher_id son requeridos");
    }
    var row := Row(db.nextCourseId, Course(title.value, teacherId, now));
    db.courses := Tables.Insert(db.courses, db.nextCourseId, row.cols);
    db.nextCourseId := db.nextCourseId + 1;
    reply := Reply(Success, Json(row));
  }

  /** `SET title = $1, teacher_id = $2`; `created_at` stays. */
  function Retitle(c: Course, title: string, teacherId: Option<int>): Course {
    Course(title, teacherId, c.createdAt)
  }

  /** PUT /:id (admin only): replaces the title and teacher_id of the course, or 404. */
  method Update(db: Store, caller: Auth.Payload, id: int, title: string, teacherId: Option<int>)
    returns (reply: Reply<Row<Course>>)
    requires db.Valid()
    modifies db`courses
    ensures db.Valid()
    ensures caller.role != Auth.AdminRole ==> reply == Fail(Forbidden, "admins only") && db.courses == old(db.courses)
    ensures caller.role == Auth.AdminRole && FindId(old(db.courses), id).None? ==>
      reply == Fail(NotFound, "Course not found") && db.courses == old(db.courses)
    ensures caller.role == Auth.AdminRole && FindId(old(db.courses), id).Some? ==>
      var updated := Row(id, Retitle(FindId(old(db.courses), id).value.cols, title, teacherId));
      && |db.courses| == |old(db.courses)|
      && (forall i :: 0 <= i < |db.courses| && old(db.courses)[i].id != id ==> db.courses[i] == old(db.courses)[i])
      && (forall i :: 0 <= i < |db.courses| && old(db.courses)[i].id == id ==> db.courses[i] == updated)
      && reply == Reply(Success, Json(updated))
  {
    var gate := Auth.IsAdmin(Some(caller));
    if gate.Refuse? {
      return Fail(gate.status, gate.message);
    }
    var found := FindId(db.courses, id);
    if found.None? {
      return Fail(NotFound, "Course not found");
    }
    forall i | 0 <= i < |db.courses| && db.courses[i].id == id ensures db.courses[i] == found.value {
      FindIdUnique(db.courses, db.nextCourseId, id, i);
    }
    db.courses := SetId(db.courses, id, (c: Course) => Retitle(c, title, teacherId));
    reply := Reply(Success, Json(Row(id, Retitle(found.value.cols, title, teacherId))));
  }

  /** DELETE /:id (admin only): 404 when there is no such course; otherwise removes exactly
      that row and keeps the others in order. */
  method Delete(db: Store, caller: Auth.Payload, id: int) returns (reply: Reply<Row<Course>>)
    requires db.Valid()
    modifies db`courses
    ensures db.Valid()
    ensures caller.role != Auth.AdminRole ==> reply == Fail(Forbidden, "admins only") && db.courses == old(db.courses)
    ensures caller.role == Auth.AdminRole && FindId(old(db.courses), id).None? ==>
      reply == Fail(NotFound, "Course not found") && db.courses == old(db.courses)
    ensures caller.role == Auth.AdminRole && FindId(old(db.courses), id).Some? ==>
      && reply == Reply(Success, Message("Course deleted successfully"))
      && db.courses == DeleteId(old(db.courses), id) && |db.courses| == |old(db.courses)| - 1
      && Seqs.IsSubsequence(db.courses, old(db.courses))
  {
    var gate := Auth.IsAdmin(Some(caller));
    if gate.Refuse? {
      return Fail(gate.status, gate.message);
    }
    if FindId(db.courses, id).None? {
      return Fail(NotFound, "Course not found");
    }
    DeleteIdKeyed(db.courses, db.nextCourseId, id);
    DeleteIdCount(db.courses, db.nextCourseId, id);
    DeleteIdInOrder(db.courses, id);
    db.courses := DeleteId(db.courses, id);
    reply := Reply(Success, Message("Course deleted successfully"));
  }
}
