/**
 * server/controllers/users.ts: registration, login and the caller's profile. Tokens are
 * signed claims `{ id, role }` valid for one hour.
 */
module UsersController {
  import opened Wrappers
  import opened Tables
  import opened Db
  import opened Http
  import Js
  import Auth

  /** `jwt.sign(payload, secret, { expiresIn })`, the lifetime in seconds. */
  type Signer = (Auth.Payload, string, int) -> string

  /** `bcrypt.hash(password, 10)`. */
  type Hasher = string -> string

  /** `bcrypt.compare(password, hash)`. */
  type Checker = (string, string) -> bool

  /** "1h". */
  const TokenLifetime := 3600

  /** `generateToken`: throws when `JWT_SECRET` is unset or empty. */
  function GenerateToken(id: int, role: string, secret: Option<string>, sign: Signer): (r: Result<string>)
    ensures r.Ok? <==> Js.Present(secret)
    ensures r.Ok? ==> r.value == sign(Auth.Payload(id, role), secret.value, TokenLifetime)
  {
    if !Js.Present(secret) then Err("JWT_SECRET not defined")
    else Ok(sign(Auth.Payload(id, role), secret.value, TokenLifetime))
  }

  /** What register and login answer with: the token and the user without its password. */
  datatype Session = Session(token: string, user: PublicUser)

  /** The fields of a registration body; absent fields are None. */
  datatype Registration = Registration(name: Option<string>, email: Option<string>, password: Option<string>,
                                       telefono: Option<string>, role: Option<string>, specialty: Option<string>)

  predicate Complete(b: Registration) {
    Js.Present(b.name) && Js.Present(b.email) && Js.Present(b.password) && Js.Present(b.role)
  }

  predicate EmailTaken(users: seq<Row<User>>, email: string) {
    exists i :: 0 <= i < |users| && users[i].cols.email == email
  }

  /** The users row a complete registration inserts. */
  function NewUser(b: Registration, hash: Hasher): User
    requires Complete(b)
  {
    User(b.name.value, b.email.value, hash(b.password.value), b.telefono, b.role.value)
  }

  /** The profile row of a new account: a students row for a student, a teachers row for a
      teacher with a specialty; reports a teacher without one, inserting nothing. */
  method AddProfile(db: Store, userId: int, role: string, specialty: Option<string>, now: int)
    returns (missingSpecialty: bool)
    requires db.Valid()
    modifies db`students, db`nextStudentId, db`teachers, db`nextTeacherId
    ensures db.Valid()
    ensures missingSpecialty <==> role == Auth.TeacherRole && !Js.Present(specialty)
    ensures role == Auth.StudentRole ==>
      db.students == old(db.students) + [Row(old(db.nextStudentId), Student(userId))]
      && db.nextStudentId == old(db.nextStudentId) + 1
    ensures role != Auth.StudentRole ==> db.students == old(db.students) && db.nextStudentId == old(db.nextStudentId)
    ensures role == Auth.TeacherRole && Js.Present(specialty) ==>
      db.teachers == old(db.teachers) + [Row(old(db.nextTeacherId), Teacher(userId, specialty.value, now))]
      && db.nextTeacherId == old(db.nextTeacherId) + 1
    ensures role != Auth.TeacherRole || !Js.Present(specialty) ==>
      db.teachers == old(db.teachers) && db.nextTeacherId == old(db.nextTeacherId)
  {
    missingSpecialty := false;
    if role == Auth.StudentRole {
      var _ := db.AddStudent(Student(userId));
    } else if role == Auth.TeacherRole {
      if !Js.Present(specialty) {
        return true;
      }
      var _ := db.AddTeacher(Teacher(userId, specialty.value, now));
    }
  }

  /** `registerUser` as written: the users row is inserted before the specialty of a teacher
      is checked, so a teacher registration without specialty answers 400 and leaves the
      users row behind without a teachers row. */
  method RegisterUser(db: Store, b: Registration, hash: Hasher, sign: Signer, secret: Option<string>, now: int)
    returns (reply: Reply<Session>)
    requires db.Valid()
    modifies db`users, db`nextUserId, db`students, db`nextStudentId, db`teachers, db`nextTeacherId
    ensures db.Valid()
    ensures !Complete(b) ==> reply == Fail(BadRequest, "Missing required fields")
    ensures Complete(b) && EmailTaken(old(db.users), b.email.value) ==> reply == Fail(BadRequest, "Email already registered")
    ensures !Complete(b) || EmailTaken(old(db.users), b.email.value) ==>
      && db.users == old(db.users) && db.nextUserId == old(db.nextUserId)
      && db.students == old(db.students) && db.nextStudentId == old(db.nextStudentId)
      && db.teachers == old(db.teachers) && db.nextTeacherId == old(db.nextTeacherId)
    ensures Complete(b) && !EmailTaken(old(db.users), b.email.value) ==>
      var u := Row(old(db.nextUserId), NewUser(b, hash));
      var teacherFails := b.role.value == Auth.TeacherRole && !Js.Present(b.specialty);
      && db.users == old(db.users) + [u] && db.nextUserId == old(db.nextUserId) + 1
      && (b.role.value == Auth.StudentRole ==>
            db.students == old(db.students) + [Row(old(db.nextStudentId), Student(u.id))]
            && db.nextStudentId == old(db.nextStudentId) + 1)
      && (b.role.value != Auth.StudentRole ==>
            db.students == old(db.students) && db.nextStudentId == old(db.nextStudentId))
      && (b.role.value == Auth.TeacherRole && Js.Present(b.specialty) ==>
            db.teachers == old(db.teachers) + [Row(old(db.nextTeacherId), Teacher(u.id, b.specialty.value, now))]
            && db.nextTeacherId == old(db.nextTeacherId) + 1)
      && (b.role.value != Auth.TeacherRole || !Js.Present(b.specialty) ==>
            db.teachers == old(db.teachers) && db.nextTeacherId == old(db.nextTeacherId))
      && (teacherFails ==> reply == Fail(BadRequest, "Specialty required for teachers"))
      && (!teacherFails && !Js.Present(secret) ==> reply == Fail(InternalError, "Error registering user"))
      && (!teacherFails && Js.Present(secret) ==>
            reply == Reply(Created, Json(Session(sign(Auth.Payload(u.id, u.cols.role), secret.value, TokenLifetime), Public(u)))))
  {
    if !Complete(b) {
      return Fail(BadRequest, "Missing required fields");
    }
    if EmailTaken(db.users, b.email.value) {
      return Fail(BadRequest, "Email already registered");
    }
    var u := db.AddUser(NewUser(b, hash));
    var missingSpecialty := AddProfile(db, u.id, b.role.value, b.specialty, now);
    if missingSpecialty {
      return Fail(BadRequest, "Specialty required for teachers");
    }
    var token := GenerateToken(u.id, u.cols.role, secret, sign);
    if token.Err? {
      return Fail(InternalError, "Error registering user");
    }
    reply := Reply(Created, Json(Session(token.value, Public(u))));
  }

  /** A concrete run of `RegisterUser`: a teacher registering without specialty on an empty
      database is refused with 400, yet one users row remains and no teachers row exists. */
  method RegisterLeavesOrphan(hash: Hasher, sign: Signer) returns (status: int, users: nat, teachers: nat)
    ensures status == BadRequest && users == 1 && teachers == 0
  {
    var db := new Store();
    var b := Registration(Some("Ana"), Some("ana@example.com"), Some("pw"), None, Some("teacher"), None);
    assert Complete(b) && !EmailTaken(db.users, "ana@example.com");
    assert b.role.value == Auth.TeacherRole && !Js.Present(b.specialty);
    var reply := RegisterUser(db, b, hash, sign, Some("s"), 0);
    status, users, teachers := reply.status, |db.users|, |db.teachers|;
  }

  /** The registrations every check lets through, the specialty of a teacher included. */
  predicate Accepted(users: seq<Row<User>>, b: Registration) {
    && Complete(b) && !EmailTaken(users, b.email.value)
    && (b.role.value == Auth.TeacherRole ==> Js.Present(b.specialty))
  }

  /** The first check a registration fails, in the order the checks are made. */
  function Rejection(users: seq<Row<User>>, b: Registration): (r: Option<string>)
    ensures r.None? <==> Accepted(users, b)
    ensures !Complete(b) ==> r == Some("Missing required fields")
    ensures Complete(b) && EmailTaken(users, b.email.value) ==> r == Some("Email already registered")
    ensures (Complete(b) && !EmailTaken(users, b.email.value) && b.role.value == Auth.TeacherRole
             && !Js.Present(b.specialty)) ==> r == Some("Specialty required for teachers")
  {
    if !Complete(b) then Some("Missing required fields")
    else if EmailTaken(users, b.email.value) then Some("Email already registered")
    else if b.role.value == Auth.TeacherRole && !Js.Present(b.specialty) then Some("Specialty required for teachers")
    else None
  }

  /** The writes of an accepted registration, and its answer. */
  method CreateAccount(db: Store, b: Registration, hash: Hasher, sign: Signer, secret: Option<string>, now: int)
    returns (reply: Reply<Session>)
    requires db.Valid() && Accepted(db.users, b)
    modifies db`users, db`nextUserId, db`students, db`nextStudentId, db`teachers, db`nextTeacherId
    ensures db.Valid()
    ensures
      var u := Row(old(db.nextUserId), NewUser(b, hash));
      && db.users == old(db.users) + [u] && db.nextUserId == old(db.nextUserId) + 1
      && (b.role.value == Auth.StudentRole ==>
            db.students == old(db.students) + [Row(old(db.nextStudentId), Student(u.id))])
      && (b.role.value != Auth.StudentRole ==> db.students == old(db.students))
      && (b.role.value == Auth.TeacherRole ==>
            db.teachers == old(db.teachers) + [Row(old(db.nextTeacherId), Teacher(u.id, b.specialty.value, now))])
      && (b.role.value != Auth.TeacherRole ==> db.teachers == old(db.teachers))
      && (!Js.Present(secret) ==> reply == Fail(InternalError, "Error registering user"))
      && (Js.Present(secret) ==>
            reply == Reply(Created, Json(Session(sign(Auth.Payload(u.id, u.cols.role), secret.value, TokenLifetime), Public(u)))))
  {
    var u := db.AddUser(NewUser(b, hash));
    var _ := AddProfile(db, u.id, b.role.value, b.specialty, now);
    var token := GenerateToken(u.id, u.cols.role, secret, sign);
    if token.Err? {
      return Fail(InternalError, "Error registering user");
    }
    reply := Reply(Created, Json(Session(token.value, Public(u))));
  }

  /** Registration with the specialty check moved before the first insert: every 400 leaves
      the database as it was, and an accepted teacher always gets a teachers row. */
  method RegisterUserAtomic(db: Store, b: Registration, hash: Hasher, sign: Signer, secret: Option<string>, now: int)
    returns (reply: Reply<Session>)
    requires db.Valid()
    modifies db`users, db`nextUserId, db`students, db`nextStudentId, db`teachers, db`nextTeacherId
    ensures db.Valid()
    ensures !Accepted(old(db.users), b) ==>
      && reply == Fail(BadRequest, Rejection(old(db.users), b).value)
      && db.users == old(db.users) && db.nextUserId == old(db.nextUserId)
      && db.students == old(db.students) && db.nextStudentId == old(db.nextStudentId)
      && db.teachers == old(db.teachers) && db.nextTeacherId == old(db.nextTeacherId)
    ensures Accepted(old(db.users), b) ==>
      var u := Row(old(db.nextUserId), NewUser(b, hash));
      && db.users == old(db.users) + [u] && db.nextUserId == old(db.nextUserId) + 1
      && (b.role.value == Auth.StudentRole ==>
            db.students == old(db.students) + [Row(old(db.nextStudentId), Student(u.id))])
      && (b.role.value != Auth.StudentRole ==> db.students == old(db.students))
      && (b.role.value == Auth.TeacherRole ==>
            db.teachers == old(db.teachers) + [Row(old(db.nextTeacherId), Teacher(u.id, b.specialty.value, now))])
      && (b.role.value != Auth.TeacherRole ==> db.teachers == old(db.teachers))
      && (!Js.Present(secret) ==> reply == Fail(InternalError, "Error registering user"))
      && (Js.Present(secret) ==>
            reply == Reply(Created, Json(Session(sign(Auth.Payload(u.id, u.cols.role), secret.value, TokenLifetime), Public(u)))))
  {
    var problem := Rejection(db.users, b);
    if problem.Some? {
      return Fail(BadRequest, problem.value);
    }
    reply := CreateAccount(db, b, hash, sign, secret, now);
  }

  /** `SELECT * FROM users WHERE email = $1` read as `rows[0]`; an undefined email binds NULL,
      which equals nothing. */
  function FirstByEmail(users: seq<Row<User>>, email: Option<string>): (r: Option<Row<User>>)
    ensures r.Some? <==> email.Some? && EmailTaken(users, email.value)
    ensures r.Some? ==> r.value in users && r.value.cols.email == email.value
    ensures r.Some? && |users| > 0 && users[0].cols.email == email.value ==> r.value == users[0]
    decreases |users|
  {
    if email.None? || users == [] then None
    else if users[0].cols.email == email.value then Some(users[0])
    else
      var r := FirstByEmail(users[1..], email);
      assert EmailTaken(users, email.value) ==> EmailTaken(users[1..], email.value) by {
        if EmailTaken(users, email.value) {
          var i :| 0 <= i < |users| && users[i].cols.email == email.value;
          assert users[1..][i - 1] == users[i];
        }
      }
      r
  }

  /** `loginUser`. An unknown email and a wrong password get the same 401; bcrypt throwing on
      an absent password, and a missing secret, become 500. */
  function Login(db: Store, email: Option<string>, password: Option<string>, compare: Checker,
                 sign: Signer, secret: Option<string>): (r: Reply<Session>)
    reads db
    ensures FirstByEmail(db.users, email).None? ==> r == Fail(Unauthorized, "Invalid credentials")
    ensures FirstByEmail(db.users, email).Some? ==>
      var u := FirstByEmail(db.users, email).value;
      && (password.None? ==> r == Fail(InternalError, "Error logging in"))
      && (password.Some? && !compare(password.value, u.cols.password) ==> r == Fail(Unauthorized, "Invalid credentials"))
      && (password.Some? && compare(password.value, u.cols.password) && !Js.Present(secret) ==>
            r == Fail(InternalError, "Error logging in"))
    ensures r.status == Success <==>
      && FirstByEmail(db.users, email).Some? && password.Some? && Js.Present(secret)
      && compare(password.value, FirstByEmail(db.users, email).value.cols.password)
    ensures r.status == Success ==>
      var u := FirstByEmail(db.users, email).value;
      r.body == Json(Session(sign(Auth.Payload(u.id, u.cols.role), secret.value, TokenLifetime), Public(u)))
  {
    match FirstByEmail(db.users, email)
    case None => Fail(Unauthorized, "Invalid credentials")
    case Some(u) =>
      if password.None? then Fail(InternalError, "Error logging in")
      else if !compare(password.value, u.cols.password) then Fail(Unauthorized, "Invalid credentials")
      else match GenerateToken(u.id, u.cols.role, secret, sign)
        case Err(_) => Fail(InternalError, "Error logging in")
        case Ok(token) => Reply(Success, Json(Session(token, Public(u))))
  }

  /** The session a successful login hands out opens the authorization gate as that user,
      given that signed tokens verify to their claims and contain no space. */
  lemma LoginThenAuthenticate(db: Store, email: Option<string>, password: Option<string>, compare: Checker,
                              sign: Signer, secret: Option<string>, verify: Auth.Verifier)
    requires Login(db, email, password, compare, sign, secret).status == Success
    requires forall p: Auth.Payload, s: string :: verify(sign(p, s, TokenLifetime), s) == Some(p)
    requires forall p: Auth.Payload, s: string :: ' ' !in sign(p, s, TokenLifetime)
    ensures var session := Login(db, email, password, compare, sign, secret).body.value;
      Auth.Authenticate(Some(Auth.BearerPrefix + session.token), secret, verify)
        == Auth.Proceed(Auth.Payload(session.user.id, session.user.role))
  {
    var u := FirstByEmail(db.users, email).value;
    var token := sign(Auth.Payload(u.id, u.cols.role), secret.value, TokenLifetime);
    Auth.BearerRoundTrip(token);
  }

  /** `getProfile`: the caller's users row without the password; no row gives an empty body. */
  function GetProfile(db: Store, caller: Auth.Payload): (r: Reply<Option<PublicUser>>)
    reads db
    ensures r.status == Success && r.body.Json?
    ensures r.body.value.Some? <==> exists i :: 0 <= i < |db.users| && db.users[i].id == caller.id
    ensures r.body.value.Some? ==> r.body.value.value.id == caller.id
    ensures forall i :: 0 <= i < |db.users| && Keyed(db.users, db.nextUserId) && db.users[i].id == caller.id ==>
      r.body.value == Some(Public(db.users[i]))
  {
    var found := FindId(db.users, caller.id);
    if found.Some? then
      assert forall i :: 0 <= i < |db.users| && Keyed(db.users, db.nextUserId) && db.users[i].id == caller.id ==>
        found.value == db.users[i] by {
        forall i | 0 <= i < |db.users| && Keyed(db.users, db.nextUserId) && db.users[i].id == caller.id {
          FindIdUnique(db.users, db.nextUserId, caller.id, i);
        }
      }
      Reply(Success, Json(Some(Public(found.value))))
    else Reply(Success, Json(None))
  }
}
