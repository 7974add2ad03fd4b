/**
 * The authentication workflow: registration, login, identity-checked issue of
 * a password-reset token, and password reset, each run against the user
 * table. One request is handled at a time.
 *
 * Each handler answers with an HTTP status and either a body or an error
 * message. For each handler there is a specification function over the
 * table before the request (the ghost `...Spec` functions below) and a method
 * of `UserStore` that performs the same steps in the same order as the
 * controller and is proved to agree with it.
 *
 * Request fields are strings; a field absent from the request body is the
 * empty string. Registration and reset treat an empty field exactly as an
 * absent one (JavaScript truthiness and `||` defaulting); login and the
 * identity check test no field and pass the strings to the lookups as they
 * are.
 */
module AuthController {
  import opened Wrappers
  import opened Bcrypt
  import opened Jwt
  import opened Users

  /** A handler's answer: a status with a body, or a status with an error message. */
  datatype Outcome<T> = Success(status: int, body: T) | Failure(status: int, message: string)

  /** The public view of a user sent after registration and login, with a session token. */
  datatype AuthView = AuthView(
    id: UserId,
    name: string,
    email: string,
    studentId: string,
    role: Role,
    token: Token<UserId>)

  /** The answer to a successful identity check: a message and a reset token. */
  datatype ResetGrant = ResetGrant(message: string, token: Token<UserId>)

  /** The body of a registration request; `role` is whatever the caller sent. */
  datatype RegisterRequest = RegisterRequest(
    name: string,
    email: string,
    password: string,
    studentId: string,
    role: string,
    department: string,
    year: string)

  const MsgAddAllFields: string := "Please add all fields"
  const MsgEmailExists: string := "User with this email already exists"
  const MsgStudentIdExists: string := "A user with this ID Number already exists"
  const MsgInvalidCredentials: string := "Invalid credentials"
  const MsgUserNotFound: string := "User not found with provided Email and ID."
  const MsgIdentityVerified: string := "Identity Verified. Proceed to reset password."
  const MsgMissingTokenOrPassword: string := "Missing token or new password"
  const MsgInvalidToken: string := "Invalid or expired token"
  const MsgPasswordUpdated: string := "Password updated successfully"

  const DefaultDepartment: string := "General"
  const DefaultYear: string := "Freshman"

  /** JavaScript `value || fallback` on a string: the empty string counts as absent. */
  function OrDefault(value: string, fallback: string): (r: string)
    ensures value != "" ==> r == value
    ensures r == value || r == fallback
    ensures fallback != "" ==> r != ""
  {
    if value != "" then value else fallback
  }

  /** `generateToken(id)`: a session token for `id`, accepted until 30 days after `now`. */
  function GenerateToken(id: UserId, now: int): (token: Token<UserId>)
    ensures forall t :: Verify(token, t) == (if t < now + SessionTtl then Some(id) else None)
  {
    Sign(id, SessionTtl, now)
  }

  /** The four fields registration demands are all present and non-empty. */
  predicate AllFieldsGiven(req: RegisterRequest)
  {
    req.name != "" && req.email != "" && req.password != "" && req.studentId != ""
  }

  /** The record a successful registration creates. */
  function NewUser(req: RegisterRequest): (u: User)
    ensures u.name == req.name && u.email == req.email && u.studentId == req.studentId
    ensures u.role == Student
    ensures Compare(req.password, u.passwordHash) && u.passwordHash != req.password
    ensures u.department != "" && u.year != ""
  {
    User(req.name, req.email, req.studentId, Hash(req.password), Student,
         OrDefault(req.department, DefaultDepartment), OrDefault(req.year, DefaultYear))
  }

  /** The public view of stored user `u` under identity `id`: everything but the password. */
  function ViewOf(id: UserId, u: User, token: Token<UserId>): (view: AuthView)
  {
    AuthView(id, u.name, u.email, u.studentId, u.role, token)
  }

  /** `registerUser` on `users`, creating identity `nextId`: the answer and the table afterwards. */
  ghost function RegisterSpec(users: Table, nextId: UserId, req: RegisterRequest, now: int): (res: (Outcome<AuthView>, Table))
    ensures res.0.Failure? ==> res.0.status == 400 && res.1 == users
    ensures res.0.Success? ==>
              && res.0.status == 201
              && res.1.Keys == users.Keys + {nextId}
              && res.1[nextId].role == Student
              && res.0.body.id == nextId
              && Verify(res.0.body.token, now) == Some(nextId)
  {
    if !AllFieldsGiven(req) then
      (Failure(400, MsgAddAllFields), users)
    else if EmailTaken(users, req.email) then
      (Failure(400, MsgEmailExists), users)
    else if StudentIdTaken(users, req.studentId) then
      (Failure(400, MsgStudentIdExists), users)
    else
      var u := NewUser(req);
      (Success(201, ViewOf(nextId, u, GenerateToken(nextId, now))), users[nextId := u])
  }

  /** `loginUser` on `users`; the table is not changed. */
  ghost function LoginSpec(users: Table, email: string, password: string, now: int): (r: Outcome<AuthView>)
    ensures r.Failure? ==> r == Failure(401, MsgInvalidCredentials)
    ensures r.Success? ==>
              && r.status == 200
              && r.body.id in users
              && users[r.body.id].email == email
              && Compare(password, users[r.body.id].passwordHash)
              && Verify(r.body.token, now) == Some(r.body.id)
  {
    match OwnerOfEmail(users, email)
    case Some(id) =>
      if Compare(password, users[id].passwordHash) then
        Success(200, ViewOf(id, users[id], GenerateToken(id, now)))
      else
        Failure(401, MsgInvalidCredentials)
    case None =>
      Failure(401, MsgInvalidCredentials)
  }

  /** `forgotPassword` on `users`; the table is not changed. */
  ghost function ForgotPasswordSpec(users: Table, email: string, studentId: string, now: int): (r: Outcome<ResetGrant>)
    ensures r.Failure? ==> r == Failure(404, MsgUserNotFound)
    ensures r.Success? ==>
              && r.status == 200
              && r.body.token.id in users
              && users[r.body.token.id].email == email
              && users[r.body.token.id].studentId == studentId
              && r.body.token.exp == now + ResetTtl
              && Verify(r.body.token, now) == Some(r.body.token.id)
  {
    match OwnerOfCredentials(users, email, studentId)
    case Some(id) => Success(200, ResetGrant(MsgIdentityVerified, Sign(id, ResetTtl, now)))
    case None => Failure(404, MsgUserNotFound)
  }

  /**
   * `resetPassword` on `users`: the answer and the table afterwards. `token`
   * is None when the request carries no token (or an empty one).
   */
  ghost function ResetPasswordSpec(users: Table, token: Option<Token<UserId>>, newPassword: string, now: int): (res: (Outcome<string>, Table))
    ensures res.0.Failure? ==> res.0.status == 400 && res.1 == users
    ensures res.0.Success? ==>
              && token.Some?
              && Verify(token.value, now) == Some(token.value.id)
              && token.value.id in users
              && res.1.Keys == users.Keys
              && res.1[token.value.id].passwordHash == Hash(newPassword)
  {
    if token.None? || newPassword == "" then
      (Failure(400, MsgMissingTokenOrPassword), users)
    else
      match Verify(token.value, now)
      case None => (Failure(400, MsgInvalidToken), users)
      case Some(id) =>
        if id !in users then
          (Failure(400, MsgInvalidToken), users)
        else
          (Success(200, MsgPasswordUpdated), users[id := users[id].(passwordHash := Hash(newPassword))])
  }

  /** The user store and the handlers that run against it. */
  class UserStore {
    var users: Table
    var nextId: UserId

    ghost predicate Valid()
      reads this
    {
      WellFormed(users, nextId)
    }

    constructor ()
      ensures Valid() && users == map[] && nextId == 0
    {
      users := map[];
      nextId := 0;
    }

    /** `User.findOne({ email })`. */
    method FindOneByEmail(email: string) returns (found: Option<UserId>)
      requires Valid()
      ensures found == OwnerOfEmail(users, email)
    {
      if exists k :: k in users && users[k].email == email {
        var k :| k in users && users[k].email == email;
        OwnerOfEmailIs(users, email, k);
        found := Some(k);
      } else {
        found := None;
      }
    }

    /** `User.findOne({ studentId })`. */
    method FindOneByStudentId(studentId: string) returns (found: Option<UserId>)
      ensures found.Some? ==> found.value in users && users[found.value].studentId == studentId
      ensures found.None? <==> !StudentIdTaken(users, studentId)
    {
      if exists k :: k in users && users[k].studentId == studentId {
        var k :| k in users && users[k].studentId == studentId;
        found := Some(k);
      } else {
        found := None;
      }
    }

    /** `User.findOne({ email, studentId })`. */
    method FindOneByCredentials(email: string, studentId: string) returns (found: Option<UserId>)
      requires Valid()
      ensures found == OwnerOfCredentials(users, email, studentId)
    {
      if exists k :: k in users && users[k].email == email && users[k].studentId == studentId {
        var k :| k in users && users[k].email == email && users[k].studentId == studentId;
        OwnerOfCredentialsIs(users, email, studentId, k);
        found := Some(k);
      } else {
        found := None;
      }
    }

    /** `User.create(record)`: stores `u` under a fresh identity. */
    method Create(u: User) returns (id: UserId)
      requires forall k :: k in users ==> k < nextId
      modifies this
      ensures id == old(nextId) && id !in old(users)
      ensures users == old(users)[id := u] && nextId == old(nextId) + 1
    {
      id := nextId;
      users := users[id := u];
      nextId := nextId + 1;
    }

    /** `user.save()` after an update of the record stored under `id`. */
    method Save(id: UserId, u: User)
      requires id in users
      modifies this
      ensures users == old(users)[id := u] && nextId == old(nextId)
    {
      users := users[id := u];
    }

    /** `registerUser`: validate, check email then student identifier, create a student. */
    method Register(req: RegisterRequest, now: int) returns (r: Outcome<AuthView>)
      requires Valid()
      modifies this
      ensures Valid()
      ensures (r, users) == RegisterSpec(old(users), old(nextId), req, now)
      ensures nextId == if r.Success? then old(nextId) + 1 else old(nextId)
    {
      if req.name == "" || req.email == "" || req.password == "" || req.studentId == "" {
        return Failure(400, MsgAddAllFields);
      }
      var userExists := FindOneByEmail(req.email);
      if userExists.Some? {
        return Failure(400, MsgEmailExists);
      }
      var idExists := FindOneByStudentId(req.studentId);
      if idExists.Some? {
        return Failure(400, MsgStudentIdExists);
      }
      var role := Student;
      var hashedPassword := Hash(req.password);
      var user := User(req.name, req.email, req.studentId, hashedPassword, role,
                       OrDefault(req.department, DefaultDepartment), OrDefault(req.year, DefaultYear));
      HashIsDigest(req.password);
      InsertPreservesWellFormed(users, nextId, user);
      var id := Create(user);
      r := Success(201, ViewOf(id, users[id], GenerateToken(id, now)));
    }

    /** `loginUser`: look the email up and compare the password; never changes the table. */
    method Login(email: string, password: string, now: int) returns (r: Outcome<AuthView>)
      requires Valid()
      ensures r == LoginSpec(users, email, password, now)
    {
      var user := FindOneByEmail(email);
      if user.Some? && Compare(password, users[user.value].passwordHash) {
        r := Success(200, ViewOf(user.value, users[user.value], GenerateToken(user.value, now)));
      } else {
        r := Failure(401, MsgInvalidCredentials);
      }
    }

    /** `forgotPassword`: match email and student identifier, answer with a 15-minute token. */
    method ForgotPassword(email: string, studentId: string, now: int) returns (r: Outcome<ResetGrant>)
      requires Valid()
      ensures r == ForgotPasswordSpec(users, email, studentId, now)
    {
      var user := FindOneByCredentials(email, studentId);
      if user.None? {
        return Failure(404, MsgUserNotFound);
      }
      var resetToken := Sign(user.value, ResetTtl, now);
      r := Success(200, ResetGrant(MsgIdentityVerified, resetToken));
    }

    /**
     * `resetPassword`: the token's identity gets the digest of the new password.
     * A failed verification and a missing user both end in the handler's catch,
     * which answers 400 "Invalid or expired token".
     */
    method ResetPassword(token: Option<Token<UserId>>, newPassword: string, now: int) returns (r: Outcome<string>)
      requires Valid()
      modifies this
      ensures Valid()
      ensures (r, users) == ResetPasswordSpec(old(users), token, newPassword, now)
      ensures nextId == old(nextId)
    {
      if token.None? || newPassword == "" {
        return Failure(400, MsgMissingTokenOrPassword);
      }
      var decoded := Verify(token.value, now);
      if decoded.None? {
        return Failure(400, MsgInvalidToken);
      }
      var id := decoded.value;
      if id !in users {
        return Failure(400, MsgInvalidToken);
      }
      var user := users[id];
      user := user.(passwordHash := Hash(newPassword));
      HashIsDigest(newPassword);
      RehashPreservesWellFormed(users, nextId, id, user.passwordHash);
      Save(id, user);
      r := Success(200, MsgPasswordUpdated);
    }
  }
}
