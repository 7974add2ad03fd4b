/**
 * What the authentication workflow promises, stated over the specification
 * functions of each handler: the order of the registration checks, the
 * created record, the uniform login and reset failures, the lifetimes of the
 * two kinds of token, the table invariant, and the round trips between
 * handlers (register then log in, verify identity then reset, reset then log
 * in).
 */
module AuthProperties {
  import opened Wrappers
  import opened Bcrypt
  import opened Jwt
  import opened Users
  import opened AuthController

  // ---------------------------------------------------------------- tokens

  /** A session token issued at T is accepted 29 days later and refused 31 days later. */
  lemma SessionTokenLifetime(id: UserId, issuedAt: int)
    ensures Verify(GenerateToken(id, issuedAt), issuedAt + 29 * Day) == Some(id)
    ensures Verify(GenerateToken(id, issuedAt), issuedAt + 31 * Day) == None
  {
  }

  /** A reset token issued at T is accepted 14 minutes later and refused 16 minutes later. */
  lemma ResetTokenLifetime(id: UserId, issuedAt: int)
    ensures Verify(Sign(id, ResetTtl, issuedAt), issuedAt + 14 * Minute) == Some(id)
    ensures Verify(Sign(id, ResetTtl, issuedAt), issuedAt + 16 * Minute) == None
  {
  }

  // ---------------------------------------------------------- registration

  /** Any of the four demanded fields absent or empty: 400 "Please add all fields", table unchanged. */
  lemma RegisterRejectsMissingFields(users: Table, nextId: UserId, req: RegisterRequest, now: int)
    requires req.name == "" || req.email == "" || req.password == "" || req.studentId == ""
    ensures RegisterSpec(users, nextId, req, now) == (Failure(400, MsgAddAllFields), users)
  {
  }

  /**
   * The email is checked before the student identifier: a taken email is
   * reported as such even when the identifier is taken too. Each conflict
   * answers 400 with its own message and leaves the table unchanged.
   */
  lemma RegisterConflictOrder(users: Table, nextId: UserId, req: RegisterRequest, now: int)
    requires AllFieldsGiven(req)
    ensures EmailTaken(users, req.email) ==>
              RegisterSpec(users, nextId, req, now) == (Failure(400, MsgEmailExists), users)
    ensures !EmailTaken(users, req.email) && StudentIdTaken(users, req.studentId) ==>
              RegisterSpec(users, nextId, req, now) == (Failure(400, MsgStudentIdExists), users)
  {
  }

  /** Registration succeeds exactly when all fields are given and neither email nor student identifier is taken. */
  lemma RegisterSucceedsIff(users: Table, nextId: UserId, req: RegisterRequest, now: int)
    ensures RegisterSpec(users, nextId, req, now).0.Success? <==>
              AllFieldsGiven(req) && !EmailTaken(users, req.email) && !StudentIdTaken(users, req.studentId)
    ensures RegisterSpec(users, nextId, req, now).0.Failure? ==>
              RegisterSpec(users, nextId, req, now).0.status == 400 && RegisterSpec(users, nextId, req, now).1 == users
  {
  }

  /**
   * A successful registration adds exactly one record, under a new identity,
   * with role student whatever role the request names, and changes no
   * existing record.
   */
  lemma RegisterAddsOneStudent(users: Table, nextId: UserId, req: RegisterRequest, now: int)
    requires forall k :: k in users ==> k < nextId
    requires RegisterSpec(users, nextId, req, now).0.Success?
    ensures var after := RegisterSpec(users, nextId, req, now).1;
      && nextId !in users
      && after.Keys == users.Keys + {nextId}
      && (forall k :: k in users ==> after[k] == users[k])
      && after[nextId].role == Student
  {
  }

  /** The role in the request body has no effect on the answer or on the table. */
  lemma RegisterIgnoresRequestedRole(users: Table, nextId: UserId, req: RegisterRequest, role: string, now: int)
    ensures RegisterSpec(users, nextId, req.(role := role), now) == RegisterSpec(users, nextId, req, now)
  {
  }

  /**
   * The new record stores the digest of the password, never the password, and
   * the 201 answer carries the stored identity, name, email, student
   * identifier and role with a session token for the new identity.
   */
  lemma RegisterStoresDigestAndAnswersView(users: Table, nextId: UserId, req: RegisterRequest, now: int)
    requires RegisterSpec(users, nextId, req, now).0.Success?
    ensures var (out, after) := RegisterSpec(users, nextId, req, now);
      && nextId in after
      && after[nextId].passwordHash == Hash(req.password)
      && after[nextId].passwordHash != req.password
      && Compare(req.password, after[nextId].passwordHash)
      && out.status == 201
      && out.body == AuthView(nextId, req.name, req.email, req.studentId, Student, GenerateToken(nextId, now))
  {
  }

  /** Department and year fall back to "General" and "Freshman" when absent or empty, and are stored as given otherwise. */
  lemma RegisterDefaults(users: Table, nextId: UserId, req: RegisterRequest, now: int)
    requires RegisterSpec(users, nextId, req, now).0.Success?
    ensures var after := RegisterSpec(users, nextId, req, now).1;
      && nextId in after
      && after[nextId].department == (if req.department == "" then "General" else req.department)
      && after[nextId].year == (if req.year == "" then "Freshman" else req.year)
  {
  }

  /** Registration keeps the table invariant: emails and student identifiers stay unique. */
  lemma RegisterPreservesWellFormed(users: Table, nextId: UserId, req: RegisterRequest, now: int)
    requires WellFormed(users, nextId)
    ensures var (out, after) := RegisterSpec(users, nextId, req, now);
      WellFormed(after, if out.Success? then nextId + 1 else nextId)
  {
    if RegisterSpec(users, nextId, req, now).0.Success? {
      HashIsDigest(req.password);
      InsertPreservesWellFormed(users, nextId, NewUser(req));
    }
  }

  // ----------------------------------------------------------------- login

  /**
   * Login succeeds exactly when some user has the email and the password
   * matches that user's digest; then it answers 200 with that user's view and
   * a session token. Every failure is the same 401 "Invalid credentials".
   */
  lemma LoginSucceedsIff(users: Table, email: string, password: string, now: int)
    requires UniqueEmails(users)
    ensures LoginSpec(users, email, password, now).Success? <==>
              exists k :: k in users && users[k].email == email && Compare(password, users[k].passwordHash)
    ensures LoginSpec(users, email, password, now).Failure? ==>
              LoginSpec(users, email, password, now) == Failure(401, MsgInvalidCredentials)
    ensures forall k :: k in users && users[k].email == email && Compare(password, users[k].passwordHash) ==>
              LoginSpec(users, email, password, now) == Success(200, ViewOf(k, users[k], GenerateToken(k, now)))
  {
    if k :| k in users && users[k].email == email && Compare(password, users[k].passwordHash) {
      OwnerOfEmailIs(users, email, k);
    }
  }

  /** An unknown email and a wrong password for a known email give the identical answer. */
  lemma LoginFailuresIndistinguishable(users: Table, unknown: string, p1: string, known: string, p2: string, now: int)
    requires UniqueEmails(users)
    requires !EmailTaken(users, unknown)
    requires exists k :: k in users && users[k].email == known && !Compare(p2, users[k].passwordHash)
    ensures LoginSpec(users, unknown, p1, now) == LoginSpec(users, known, p2, now) == Failure(401, MsgInvalidCredentials)
  {
    var k :| k in users && users[k].email == known && !Compare(p2, users[k].passwordHash);
    OwnerOfEmailIs(users, known, k);
  }

  // ------------------------------------------------------- forgot password

  /**
   * The identity check succeeds exactly when one user has both the email and
   * the student identifier; it then answers 200 with a token for that user
   * that is accepted until 15 minutes after issue. Otherwise it answers 404.
   */
  lemma ForgotPasswordSucceedsIff(users: Table, email: string, studentId: string, now: int)
    requires UniqueEmails(users)
    ensures ForgotPasswordSpec(users, email, studentId, now).Success? <==>
              exists k :: k in users && users[k].email == email && users[k].studentId == studentId
    ensures ForgotPasswordSpec(users, email, studentId, now).Failure? ==>
              ForgotPasswordSpec(users, email, studentId, now) == Failure(404, MsgUserNotFound)
    ensures forall k :: k in users && users[k].email == email && users[k].studentId == studentId ==>
              ForgotPasswordSpec(users, email, studentId, now)
                == Success(200, ResetGrant(MsgIdentityVerified, Token(k, now + ResetTtl, true)))
  {
    if k :| k in users && users[k].email == email && users[k].studentId == studentId {
      OwnerOfCredentialsIs(users, email, studentId, k);
    }
  }

  // -------------------------------------------------------- reset password

  /** No token or no new password: 400 "Missing token or new password", table unchanged. */
  lemma ResetRejectsMissingInput(users: Table, token: Option<Token<UserId>>, newPassword: string, now: int)
    requires token.None? || newPassword == ""
    ensures ResetPasswordSpec(users, token, newPassword, now) == (Failure(400, MsgMissingTokenOrPassword), users)
  {
  }

  /**
   * With both inputs present, a token that fails verification and a token
   * naming no user give the same 400 "Invalid or expired token" and leave the
   * table unchanged.
   */
  lemma ResetRejectsBadToken(users: Table, token: Token<UserId>, newPassword: string, now: int)
    requires newPassword != ""
    requires Verify(token, now).None? || token.id !in users
    ensures ResetPasswordSpec(users, Some(token), newPassword, now) == (Failure(400, MsgInvalidToken), users)
    ensures ResetPasswordSpec(users, Some(Tamper(token)), newPassword, now) == (Failure(400, MsgInvalidToken), users)
  {
  }

  /**
   * A token whose signature was altered is refused with 400 "Invalid or
   * expired token" and leaves the table unchanged, whatever the token was
   * before: also a fresh token for a stored user.
   */
  lemma ResetRejectsTamperedToken(users: Table, token: Token<UserId>, newPassword: string, now: int)
    requires newPassword != ""
    ensures ResetPasswordSpec(users, Some(Tamper(token)), newPassword, now) == (Failure(400, MsgInvalidToken), users)
  {
  }

  /** A freshly issued reset token for a stored user, once tampered with, does not reset that user's password. */
  lemma TamperedResetTokenRefused(users: Table, k: UserId, newPassword: string, now: int, later: int)
    requires k in users && newPassword != "" && now <= later < now + ResetTtl
    ensures ResetPasswordSpec(users, Some(Sign(k, ResetTtl, now)), newPassword, later).0.Success?
    ensures ResetPasswordSpec(users, Some(Tamper(Sign(k, ResetTtl, now))), newPassword, later)
              == (Failure(400, MsgInvalidToken), users)
  {
  }

  /**
   * A successful reset changes only the digest of the user the token names,
   * to the digest of the new password; every other field and every other
   * record stay as they were, and the answer carries no token.
   */
  lemma ResetChangesOnlyThatDigest(users: Table, token: Option<Token<UserId>>, newPassword: string, now: int)
    requires ResetPasswordSpec(users, token, newPassword, now).0.Success?
    ensures token.Some? && token.value.id in users
    ensures var (out, after) := ResetPasswordSpec(users, token, newPassword, now);
      var id := token.value.id;
      && out == Success(200, MsgPasswordUpdated)
      && after.Keys == users.Keys
      && (forall k :: k in users && k != id ==> after[k] == users[k])
      && after[id].passwordHash == Hash(newPassword)
      && after[id] == users[id].(passwordHash := after[id].passwordHash)
  {
  }

  /** Reset succeeds exactly when a new password is given and the token verifies to a stored user. */
  lemma ResetSucceedsIff(users: Table, token: Option<Token<UserId>>, newPassword: string, now: int)
    ensures ResetPasswordSpec(users, token, newPassword, now).0.Success? <==>
              newPassword != "" && token.Some? && Verify(token.value, now).Some? && token.value.id in users
  {
  }

  /** Reset keeps the table invariant. */
  lemma ResetPreservesWellFormed(users: Table, nextId: UserId, token: Option<Token<UserId>>, newPassword: string, now: int)
    requires WellFormed(users, nextId)
    ensures WellFormed(ResetPasswordSpec(users, token, newPassword, now).1, nextId)
  {
    var (out, _) := ResetPasswordSpec(users, token, newPassword, now);
    if out.Success? {
      HashIsDigest(newPassword);
      RehashPreservesWellFormed(users, nextId, token.value.id, Hash(newPassword));
    }
  }

  // ----------------------------------------------------------- round trips

  /**
   * After a successful registration, logging in with the same email and
   * password succeeds for the new identity, and any other password fails.
   */
  lemma RegisterThenLogin(users: Table, nextId: UserId, req: RegisterRequest, now: int, later: int, other: string)
    requires WellFormed(users, nextId)
    requires RegisterSpec(users, nextId, req, now).0.Success?
    requires other != req.password
    ensures var after := RegisterSpec(users, nextId, req, now).1;
      && nextId in after
      && LoginSpec(after, req.email, req.password, later) == Success(200, ViewOf(nextId, after[nextId], GenerateToken(nextId, later)))
      && LoginSpec(after, req.email, other, later) == Failure(401, MsgInvalidCredentials)
  {
    var after := RegisterSpec(users, nextId, req, now).1;
    RegisterPreservesWellFormed(users, nextId, req, now);
    OwnerOfEmailIs(after, req.email, nextId);
    if Compare(other, after[nextId].passwordHash) {
      CompareOnlyOwnHash(other, req.password);
      assert false;
    }
  }

  /**
   * Whoever knows a user's email and student identifier obtains a reset
   * token, and that token resets that user's password if it is used before
   * 15 minutes have passed; from then on it is refused.
   */
  lemma ForgotThenReset(users: Table, k: UserId, newPassword: string, now: int, later: int)
    requires UniqueEmails(users) && k in users && newPassword != ""
    ensures var grant := ForgotPasswordSpec(users, users[k].email, users[k].studentId, now);
      && grant.Success?
      && var (out, after) := ResetPasswordSpec(users, Some(grant.body.token), newPassword, later);
         (later < now + ResetTtl ==> out.Success? && after == users[k := users[k].(passwordHash := Hash(newPassword))])
         && (later >= now + ResetTtl ==> out == Failure(400, MsgInvalidToken) && after == users)
  {
    OwnerOfCredentialsIs(users, users[k].email, users[k].studentId, k);
  }

  /** After a successful reset, the new password logs the user in and any other password does not. */
  lemma ResetThenLogin(users: Table, nextId: UserId, token: Option<Token<UserId>>, newPassword: string, now: int, later: int, other: string)
    requires WellFormed(users, nextId)
    requires ResetPasswordSpec(users, token, newPassword, now).0.Success?
    requires other != newPassword
    ensures token.Some? && token.value.id in users
    ensures var after := ResetPasswordSpec(users, token, newPassword, now).1;
      var id := token.value.id;
      && id in after
      && LoginSpec(after, users[id].email, newPassword, later).Success?
      && LoginSpec(after, users[id].email, newPassword, later).body.id == id
      && LoginSpec(after, users[id].email, other, later) == Failure(401, MsgInvalidCredentials)
  {
    var id := token.value.id;
    var after := ResetPasswordSpec(users, token, newPassword, now).1;
    ResetPreservesWellFormed(users, nextId, token, newPassword, now);
    OwnerOfEmailIs(after, users[id].email, id);
    if Compare(other, after[id].passwordHash) {
      CompareOnlyOwnHash(other, newPassword);
      assert false;
    }
  }

  /**
   * Reset and session tokens differ only in lifetime: the session token a
   * login answers with is also accepted by the reset handler for 30 days.
   */
  lemma SessionTokenAcceptedForReset(users: Table, email: string, password: string, newPassword: string, now: int, later: int)
    requires UniqueEmails(users)
    requires LoginSpec(users, email, password, now).Success?
    requires newPassword != "" && later < now + SessionTtl
    ensures ResetPasswordSpec(users, Some(LoginSpec(users, email, password, now).body.token), newPassword, later).0.Success?
  {
  }

  // ------------------------------------------------------------- a session

  /**
   * One session on an empty table: Ann registers as a student, logs in,
   * fails with a wrong password, verifies her identity, resets her password,
   * and from then on only the new password logs her in.
   */
  lemma AnnSession(now: int)
    ensures var req := RegisterRequest("Ann", "a@x.com", "pw123", "S1", "admin", "", "");
      var (registered, t1) := RegisterSpec(map[], 0, req, now);
      && registered.Success? && registered.status == 201 && registered.body.role == Student
      && LoginSpec(t1, "a@x.com", "pw123", now).Success?
      && LoginSpec(t1, "a@x.com", "wrong", now) == Failure(401, MsgInvalidCredentials)
      && var grant := ForgotPasswordSpec(t1, "a@x.com", "S1", now);
      && grant.Success? && grant.status == 200
      && var (reset, t2) := ResetPasswordSpec(t1, Some(grant.body.token), "newpw", now + 1);
      && reset == Success(200, MsgPasswordUpdated)
      && LoginSpec(t2, "a@x.com", "newpw", now + 2).Success?
      && LoginSpec(t2, "a@x.com", "pw123", now + 2) == Failure(401, MsgInvalidCredentials)
  {
    var req := RegisterRequest("Ann", "a@x.com", "pw123", "S1", "admin", "", "");
    var t0: Table := map[];
    assert WellFormed(t0, 0);
    assert RegisterSpec(t0, 0, req, now).0.Success?;
    RegisterStoresDigestAndAnswersView(t0, 0, req, now);
    RegisterThenLogin(t0, 0, req, now, now, "wrong");
    RegisterPreservesWellFormed(t0, 0, req, now);
    var t1 := RegisterSpec(t0, 0, req, now).1;
    assert t1[0].email == "a@x.com" && t1[0].studentId == "S1";
    ForgotThenReset(t1, 0, "newpw", now, now + 1);
    var token := ForgotPasswordSpec(t1, "a@x.com", "S1", now).body.token;
    ResetThenLogin(t1, 1, Some(token), "newpw", now + 1, now + 2, "pw123");
  }
}
