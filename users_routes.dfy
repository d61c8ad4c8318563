/**
 * server/routes/users.ts: the caller's own account, and the admin's list, update and delete
 * of accounts. Every route runs after `verifyToken`; all but GET /me also after `isAdmin`.
 */
module UsersRoutes {
  import opened Wrappers
  import opened Tables
  import opened Db
  import opened Http
  import opened Ordering
  import Text
  import Js
  import Auth
  import UsersController

  /** GET /me: the caller's account without the password, or 404. */
  function Me(db: Store, caller: Auth.Payload): (r: Reply<PublicUser>)
    reads db
    ensures r.status == NotFound <==> forall i :: 0 <= i < |db.users| ==> db.users[i].id != caller.id
    ensures r.status == NotFound ==> r == Fail(NotFound, "Usuario no encontrado")
    ensures r.status != NotFound ==> r.status == Success && r.body.Json? && r.body.value.id == caller.id
    ensures r.body.Json? ==> exists i :: 0 <= i < |db.users| && r.body.value == Public(db.users[i])
  {
    match FindId(db.users, caller.id)
    case None => Fail(NotFound, "Usuario no encontrado")
    case Some(u) => Reply(Success, Json(Public(u)))
  }

  /** GET /me and the controller's `getProfile` find the same account; GET /me answers 404
      where `getProfile` answers an empty body. */
  lemma MeAgreesWithProfile(db: Store, caller: Auth.Payload)
    ensures var p := UsersController.GetProfile(db, caller).body.value;
      && (p.None? <==> Me(db, caller).status == NotFound)
      && (p.Some? ==> Me(db, caller).body == Json(p.value))
  {
  }

  function NameKey(u: PublicUser): Key {
    Text(u.name)
  }

  function PublicAll(users: seq<Row<User>>): (r: seq<PublicUser>)
    ensures |r| == |users| && forall i :: 0 <= i < |users| ==> r[i] == Public(users[i])
  {
    seq(|users|, i requires 0 <= i < |users| => Public(users[i]))
  }

  /** GET /: for an admin, every account without its password, by name ascending. */
  function List(db: Store, caller: Auth.Payload): (r: Reply<seq<PublicUser>>)
    reads db
    ensures caller.role != Auth.AdminRole ==> r == Fail(Forbidden, "admins only")
    ensures caller.role == Auth.AdminRole ==>
      && r.status == Success && r.body.Json?
      && multiset(r.body.value) == multiset(PublicAll(db.users))
      && SortedBy(r.body.value, NameKey, Asc)
  {
    match Auth.IsAdmin(Some(caller))
    case Refuse(status, message) => Fail(status, message)
    case Proceed(_) => Reply(Success, Json(SortBy(PublicAll(db.users), NameKey, Asc)))
  }

  /** The fields of a PUT body; an absent or null field is None. */
  datatype UserPatch = UserPatch(name: Option<string>, email: Option<string>, telefono: Option<string>,
                                 role: Option<string>, password: Option<string>)

  /** `SET col = COALESCE($n, col)` for each column. */
  function Merge(u: User, p: UserPatch, hashedPassword: Option<string>): User {
    User(p.name.GetOr(u.name), p.email.GetOr(u.email), hashedPassword.GetOr(u.password),
         if p.telefono.Some? then p.telefono else u.telefono, p.role.GetOr(u.role))
  }

  /** The password is rehashed only when it is given and not blank after trimming. */
  predicate NewPassword(password: Option<string>) {
    Js.Present(password) && Text.Trim(password.value) != ""
  }

  /** A field of the patch overwrites the stored value exactly when it is given; the password
      changes exactly when a non-blank one is given, and then to its hash. */
  lemma MergeFields(u: User, p: UserPatch, hash: UsersController.Hasher)
    ensures var h := if NewPassword(p.password) then Some(hash(p.password.value)) else None;
      var m := Merge(u, p, h);
      && (p.name.None? ==> m.name == u.name) && (p.name.Some? ==> m.name == p.name.value)
      && (p.email.None? ==> m.email == u.email) && (p.email.Some? ==> m.email == p.email.value)
      && (p.telefono.None? ==> m.telefono == u.telefono) && (p.telefono.Some? ==> m.telefono == p.telefono)
      && (p.role.None? ==> m.role == u.role) && (p.role.Some? ==> m.role == p.role.value)
      && (!NewPassword(p.password) ==> m.password == u.password)
      && (NewPassword(p.password) ==> m.password == hash(p.password.value))
  {
  }

  /** Two PUTs of the same patch, each hashing with its own salt (`hash1`, `hash2`): the result
      is what the second PUT alone would store. Without a new password that is exactly what one
      PUT stores; with one, the stored hash is the second salt's, which differs from the first's
      whenever the two salts give different hashes. */
  lemma MergeTwice(u: User, p: UserPatch, hash1: UsersController.Hasher, hash2: UsersController.Hasher)
    ensures var h1 := if NewPassword(p.password) then Some(hash1(p.password.value)) else None;
      var h2 := if NewPassword(p.password) then Some(hash2(p.password.value)) else None;
      && Merge(Merge(u, p, h1), p, h2) == Merge(u, p, h2)
      && (!NewPassword(p.password) ==> Merge(Merge(u, p, h1), p, h2) == Merge(u, p, h1))
      && (NewPassword(p.password) && hash1(p.password.value) != hash2(p.password.value) ==>
            Merge(Merge(u, p, h1), p, h2).password != Merge(u, p, h1).password)
  {
  }

  /** PUT /:id (admin only): merges the given fields into the account, rehashing a new
      password; 404 and no change when there is no such account. */
  method Update(db: Store, caller: Auth.Payload, id: int, p: UserPatch, hash: UsersController.Hasher)
    returns (reply: Reply<PublicUser>)
    requires db.Valid()
    modifies db`users
    ensures db.Valid()
    ensures caller.role != Auth.AdminRole ==> reply == Fail(Forbidden, "admins only") && db.users == old(db.users)
    ensures caller.role == Auth.AdminRole && FindId(old(db.users), id).None? ==>
      reply == Fail(NotFound, "Usuario no encontrado") && db.users == old(db.users)
    ensures caller.role == Auth.AdminRole && FindId(old(db.users), id).Some? ==>
      var h := if NewPassword(p.password) then Some(hash(p.password.value)) else None;
      var updated := Row(id, Merge(FindId(old(db.users), id).value.cols, p, h));
      && |db.users| == |old(db.users)|
      && (forall i :: 0 <= i < |db.users| && old(db.users)[i].id != id ==> db.users[i] == old(db.users)[i])
      && (forall i :: 0 <= i < |db.users| && old(db.users)[i].id == id ==> db.users[i] == updated)
      && reply == Reply(Success, Json(Public(updated)))
  {
    var gate := Auth.IsAdmin(Some(caller));
    if gate.Refuse? {
      return Fail(gate.status, gate.message);
    }
    var hashedPassword: Option<string> := None;
    if NewPassword(p.password) {
      hashedPassword := Some(hash(p.password.value));
    }
    var found := FindId(db.users, id);
    if found.None? {
      return Fail(NotFound, "Usuario no encontrado");
    }
    forall i | 0 <= i < |db.users| && db.users[i].id == id ensures db.users[i] == found.value {
      FindIdUnique(db.users, db.nextUserId, id, i);
    }
    db.users := SetId(db.users, id, (u: User) => Merge(u, p, hashedPassword));
    reply := Reply(Success, Json(Public(Row(id, Merge(found.value.cols, p, hashedPassword)))));
  }

  /** DELETE /:id (admin only): removes the account if there is one, and reports success
      either way. */
  method Delete(db: Store, caller: Auth.Payload, id: int) returns (reply: Reply<PublicUser>)
    requires db.Valid()
    modifies db`users
    ensures db.Valid()
    ensures caller.role != Auth.AdminRole ==> reply == Fail(Forbidden, "admins only") && db.users == old(db.users)
    ensures caller.role == Auth.AdminRole ==>
      && reply == Reply(Success, Message("Usuario eliminado correctamente"))
      && db.users == DeleteId(old(db.users), id)
  {
    var gate := Auth.IsAdmin(Some(caller));
    if gate.Refuse? {
      return Fail(gate.status, gate.message);
    }
    DeleteIdKeyed(db.users, db.nextUserId, id);
    db.users := DeleteId(db.users, id);
    reply := Reply(Success, Message("Usuario eliminado correctamente"));
  }
}
