/**
 * The authorization gate (server/middleware/auth.ts): `verifyToken` establishes the caller
 * from the Authorization header, `hasRole` admits only an exact role.
 */
module Auth {
  import opened Wrappers
  import Text
  import Js

  const AdminRole := "admin"
  const StudentRole := "student"
  const TeacherRole := "teacher"

  /** The claims a token carries: the account id and its role. */
  datatype Payload = Payload(id: int, role: string)

  /** `jwt.verify(token, secret)`: the decoded claims, or None where it throws (bad signature,
      expiry passed, malformed token). The clock it checks expiry against is inside it. */
  type Verifier = (string, string) -> Option<Payload>

  /** A middleware's decision: call `next` with the caller, or answer with status and message. */
  datatype Gate = Proceed(user: Payload) | Refuse(status: int, message: string)

  const BearerPrefix := "Bearer "

  lemma BearerSplit(rest: string)
    ensures Text.Split(BearerPrefix + rest) == ["Bearer"] + Text.Split(rest)
  {
    assert BearerPrefix + rest == "Bearer" + (" " + rest);
    Text.SplitField("Bearer", " " + rest);
    assert (" " + rest)[1..] == rest;
    assert Text.Split(" " + rest) == [""] + Text.Split(rest);
    assert "Bearer" + "" == "Bearer";
    assert ([""] + Text.Split(rest))[1..] == Text.Split(rest);
  }

  /** The token in an Authorization header: the second space-separated field when the header
      starts with "Bearer ", otherwise the whole header. */
  function ExtractToken(header: string): (token: string)
    ensures !Text.StartsWith(header, BearerPrefix) ==> token == header
  {
    if Text.StartsWith(header, BearerPrefix) then
      assert header == BearerPrefix + header[|BearerPrefix|..];
      BearerSplit(header[|BearerPrefix|..]);
      Text.Split(header)[1]
    else header
  }

  /** After "Bearer ", the token runs up to the next space or the end of the header. */
  lemma BearerToken(token: string, rest: string)
    requires ' ' !in token
    requires rest == [] || rest[0] == ' '
    ensures ExtractToken(BearerPrefix + token + rest) == token
  {
    var header := BearerPrefix + token + rest;
    assert header == BearerPrefix + (token + rest);
    assert header[..|BearerPrefix|] == BearerPrefix;
    assert header[|BearerPrefix|..] == token + rest;
    BearerSplit(token + rest);
    Text.SplitField(token, rest);
    assert Text.Split(header) == ["Bearer"] + Text.Split(token + rest);
    if rest == [] {
      assert Text.Split(rest) == [""];
      assert token + "" == token;
    } else {
      assert rest == " " + rest[1..];
      Text.SplitField("", rest);
      assert Text.Split(rest) == [""] + Text.Split(rest[1..]);
      assert token + "" == token;
    }
  }

  /** The header the client sends, `Bearer ${token}`, yields the token back. */
  lemma BearerRoundTrip(token: string)
    requires ' ' !in token
    ensures ExtractToken(BearerPrefix + token) == token
  {
    BearerToken(token, "");
    assert BearerPrefix + token + "" == BearerPrefix + token;
  }

  /** `verifyToken`'s decision. A missing or empty header is 401; a missing secret or a
      token that does not verify is 403 with one message whatever the reason. */
  function Authenticate(header: Option<string>, secret: Option<string>, verify: Verifier): (g: Gate)
    ensures !Js.Present(header) ==> g == Refuse(401, "No token provided")
    ensures Js.Present(header) && !Js.Present(secret) ==> g == Refuse(403, "Invalid or expired token")
    ensures Js.Present(header) && Js.Present(secret) && verify(ExtractToken(header.value), secret.value).None? ==>
      g == Refuse(403, "Invalid or expired token")
    ensures g.Proceed? <==>
      Js.Present(header) && Js.Present(secret) && verify(ExtractToken(header.value), secret.value).Some?
    ensures g.Proceed? ==> Some(g.user) == verify(ExtractToken(header.value), secret.value)
    ensures g.Refuse? ==> g.status in {401, 403}
  {
    if !Js.Present(header) then Refuse(401, "No token provided")
    else
      var token := ExtractToken(header.value);
      if !Js.Present(secret) then Refuse(403, "Invalid or expired token")
      else match verify(token, secret.value)
        case None => Refuse(403, "Invalid or expired token")
        case Some(decoded) => Proceed(decoded)
  }

  /** An expired token and a forged one get the same answer. */
  lemma RejectionsIndistinguishable(h1: string, h2: string, secret: Option<string>, verify: Verifier)
    requires h1 != "" && h2 != ""
    requires Authenticate(Some(h1), secret, verify).Refuse?
    requires Authenticate(Some(h2), secret, verify).Refuse?
    ensures Authenticate(Some(h1), secret, verify) == Authenticate(Some(h2), secret, verify)
  {
  }

  /** The request object the gate writes the caller into. */
  class Request {
    const authorization: Option<string>
    var user: Option<Payload>

    constructor (authorization: Option<string>)
      ensures this.authorization == authorization && user == None
    {
      this.authorization := authorization;
      user := None;
    }
  }

  /** `verifyToken(req, res, next)`: on success sets `req.user` to the decoded claims and
      calls `next` (the result is `Proceed`); otherwise answers and leaves `req.user` alone. */
  method VerifyToken(req: Request, secret: Option<string>, verify: Verifier) returns (g: Gate)
    modifies req
    ensures g == Authenticate(req.authorization, secret, verify)
    ensures g.Proceed? ==> req.user == Some(g.user)
    ensures g.Refuse? ==> req.user == old(req.user)
  {
    var header := req.authorization;
    if !Js.Present(header) {
      return Refuse(401, "No token provided");
    }
    var token := ExtractToken(header.value);
    if !Js.Present(secret) {
      return Refuse(403, "Invalid or expired token");
    }
    var decoded := verify(token, secret.value);
    if decoded.None? {
      return Refuse(403, "Invalid or expired token");
    }
    req.user := decoded;
    g := Proceed(decoded.value);
  }

  /** `hasRole(role)`: admits a caller whose role is exactly `role`. */
  function HasRole(role: string, user: Option<Payload>): (g: Gate)
    ensures user.None? ==> g == Refuse(403, "Unauthorized")
    ensures user.Some? && user.value.role != role ==> g == Refuse(403, role + "s only")
    ensures g.Proceed? <==> user.Some? && user.value.role == role
    ensures g.Proceed? ==> g.user == user.value
  {
    match user
    case None => Refuse(403, "Unauthorized")
    case Some(u) => if u.role != role then Refuse(403, role + "s only") else Proceed(u)
  }

  function IsAdmin(user: Option<Payload>): (g: Gate)
    ensures g.Proceed? <==> user.Some? && user.value.role == "admin"
    ensures user.Some? && user.value.role != "admin" ==> g == Refuse(403, "admins only")
  {
    HasRole(AdminRole, user)
  }

  function IsStudent(user: Option<Payload>): (g: Gate)
    ensures g.Proceed? <==> user.Some? && user.value.role == "student"
    ensures user.Some? && user.value.role != "student" ==> g == Refuse(403, "students only")
  {
    HasRole(StudentRole, user)
  }

  /** A route's middleware chain: `verifyToken`, then `hasRole(role)` when the route names one.
      The handler runs only for a verified caller holding the required role. */
  function Guard(header: Option<string>, secret: Option<string>, verify: Verifier, role: Option<string>): (g: Gate)
    ensures g.Proceed? <==>
      Authenticate(header, secret, verify).Proceed?
      && (role.Some? ==> Authenticate(header, secret, verify).user.role == role.value)
    ensures g.Proceed? ==> g.user == Authenticate(header, secret, verify).user
    ensures !Js.Present(header) ==> g == Refuse(401, "No token provided")
  {
    match Authenticate(header, secret, verify)
    case Refuse(status, message) => Refuse(status, message)
    case Proceed(u) => if role.None? then Proceed(u) else HasRole(role.value, Some(u))
  }
}
