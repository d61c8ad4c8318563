/**
 * server/routes/teachers.ts: every authenticated caller lists teachers with their account; only
 * an admin creates, re-specialises or deletes one.
 */
module TeachersRoutes {
  import opened Wrappers
  import opened Tables
  import opened Db
  import opened Http
  import opened Ordering
  import Seqs
  import Js
  import Auth

  /** A row of GET /: the teacher and the public columns of its account. */
  datatype View = View(id: int, specialty: string, createdAt: int, userId: int, name: string,
                       email: string, telefono: Option<string>, role: string)

  function IdKey(v: View): Key {
    Num(v.id)
  }

  /** `teachers t JOIN users u ON t.user_id = u.id`, for one teacher. */
  function Join(t: Row<Teacher>, users: seq<Row<User>>): (r: Option<View>)
    ensures r.Some? <==> FindId(users, t.cols.userId).Some?
    ensures r.Some? ==>
      && r.value.id == t.id && r.value.specialty == t.cols.specialty && r.value.userId == t.cols.userId
      && r.value.createdAt == t.cols.createdAt
      && var u := FindId(users, t.cols.userId).value.cols;
      && r.value.name == u.name && r.value.email == u.email && r.value.telefono == u.telefono
      && r.value.role == u.role
  {
    match FindId(users, t.cols.userId)
    case None => None
    case Some(u) =>
      Some(View(t.id, t.cols.specialty, t.cols.createdAt, u.id, u.cols.name, u.cols.email, u.cols.telefono, u.cols.role))
  }

  function Joined(teachers: seq<Row<Teacher>>, users: seq<Row<User>>): (r: seq<View>)
    ensures forall i :: 0 <= i < |teachers| && Join(teachers[i], users).Some? ==> Join(teachers[i], users).value in r
    ensures forall j :: 0 <= j < |r| ==> exists i :: 0 <= i < |teachers| && Join(teachers[i], users) == Some(r[j])
  {
    Seqs.FilterMap(teachers, t => Join(t, users))
  }

  /** GET /: teachers with their account, by teacher id ascending. */
  function List(db: Store): (r: seq<View>)
    reads db
    ensures SortedBy(r, IdKey, Asc)
    ensures multiset(r) == multiset(Joined(db.teachers, db.users))
  {
    SortBy(Joined(db.teachers, db.users), IdKey, Asc)
  }

  /** `!user_id || !specialty`. */
  predicate Missing(userId: Option<int>, specialty: Option<string>) {
    userId.None? || userId.value == 0 || !Js.Present(specialty)
  }

  /** POST / (admin only): 400 unless a non-zero user_id and a specialty are given; otherwise
      adds one teacher and answers with it. `now` is the `created_at` default. */
  method Create(db: Store, caller: Auth.Payload, userId: Option<int>, specialty: Option<string>, now: int)
    returns (reply: Reply<Row<Teacher>>)
    requires db.Valid()
    modifies db`teachers, db`nextTeacherId
    ensures db.Valid()
    ensures caller.role != Auth.AdminRole ==> reply == Fail(Forbidden, "admins only")
    ensures caller.role == Auth.AdminRole && Missing(userId, specialty) ==>
      reply == Fail(BadRequest, "user_id y specialty son requeridos")
    ensures caller.role != Auth.AdminRole || Missing(userId, specialty) ==>
      db.teachers == old(db.teachers) && db.nextTeacherId == old(db.nextTeacherId)
    ensures caller.role == Auth.AdminRole && !Missing(userId, specialty) ==>
      var row := Row(old(db.nextTeacherId), Teacher(userId.value, specialty.value, now));
      && db.teachers == old(db.teachers) + [row] && db.nextTeacherId == old(db.nextTeacherId) + 1
      && reply == Reply(Success, Json(row))
  {
    var gate := Auth.IsAdmin(Some(caller));
    if gate.Refuse? {
      return Fail(gate.status, gate.message);
    }
    if Missing(userId, specialty) {
      return Fail(BadRequest, "user_id y specialty son requeridos");
    }
    var row := db.AddTeacher(Teacher(userId.value, specialty.value, now));
    reply := Reply(Success, Json(row));
  }

  /** `SET specialty = $1`: the account and creation time stay. */
  function Respecialise(t: Teacher, specialty: string): Teacher {
    Teacher(t.userId, specialty, t.createdAt)
  }

  /** PUT /:id (admin only): changes only the specialty of the teacher, or 404. */
  method Update(db: Store, caller: Auth.Payload, id: int, specialty: string) returns (reply: Reply<Row<Teacher>>)
    requires db.Valid()
    modifies db`teachers
    ensures db.Valid()
    ensures caller.role != Auth.AdminRole ==> reply == Fail(Forbidden, "admins only") && db.teachers == old(db.teachers)
    ensures caller.role == Auth.AdminRole && FindId(old(db.teachers), id).None? ==>
      reply == Fail(NotFound, "Teacher not found") && db.teachers == old(db.teachers)
    ensures caller.role == Auth.AdminRole && FindId(old(db.teachers), id).Some? ==>
      var before := FindId(old(db.teachers), id).value;
      var updated := Row(id, Teacher(before.cols.userId, specialty, before.cols.createdAt));
      && |db.teachers| == |old(db.teachers)|
      && (forall i :: 0 <= i < |db.teachers| && old(db.teachers)[i].id != id ==> db.teachers[i] == old(db.teachers)[i])
      && (forall i :: 0 <= i < |db.teachers| && old(db.teachers)[i].id == id ==> db.teachers[i] == updated)
      && reply == Reply(Success, Json(updated))
  {
    var gate := Auth.IsAdmin(Some(caller));
    if gate.Refuse? {
      return Fail(gate.status, gate.message);
    }
    var found := FindId(db.teachers, id);
    if found.None? {
      return Fail(NotFound, "Teacher not found");
    }
    forall i | 0 <= i < |db.teachers| && db.teachers[i].id == id ensures db.teachers[i] == found.value {
      FindIdUnique(db.teachers, db.nextTeacherId, id, i);
    }
    db.teachers := SetId(db.teachers, id, (t: Teacher) => Respecialise(t, specialty));
    reply := Reply(Success, Json(Row(id, Respecialise(found.value.cols, specialty))));
  }

  /** DELETE /:id (admin only): 404 when there is no such teacher; otherwise removes exactly
      that row. */
  method Delete(db: Store, caller: Auth.Payload, id: int) returns (reply: Reply<Row<Teacher>>)
    requires db.Valid()
    modifies db`teachers
    ensures db.Valid()
    ensures caller.role != Auth.AdminRole ==> reply == Fail(Forbidden, "admins only") && db.teachers == old(db.teachers)
    ensures caller.role == Auth.AdminRole && FindId(old(db.teachers), id).None? ==>
      reply == Fail(NotFound, "Teacher not found") && db.teachers == old(db.teachers)
    ensures caller.role == Auth.AdminRole && FindId(old(db.teachers), id).Some? ==>
      && reply == Reply(Success, Message("Teacher deleted successfully"))
      && db.teachers == DeleteId(old(db.teachers), id) && |db.teachers| == |old(db.teachers)| - 1
  {
    var gate := Auth.IsAdmin(Some(caller));
    if gate.Refuse? {
      return Fail(gate.status, gate.message);
    }
    if FindId(db.teachers, id).None? {
      return Fail(NotFound, "Teacher not found");
    }
    DeleteIdKeyed(db.teachers, db.nextTeacherId, id);
    DeleteIdCount(db.teachers, db.nextTeacherId, id);
    db.teachers := DeleteId(db.teachers, id);
    reply := Reply(Success, Message("Teacher deleted successfully"));
  }
}
