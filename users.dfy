/**
 * The user table the controller works on: a record per user, keyed by an
 * opaque identity, and the invariant the registration flow maintains on it.
 */
module Users {
  import opened Wrappers
  import opened Bcrypt

  /** The opaque identity the store assigns to a record at creation. */
  type UserId = nat

  datatype Role = Student | Admin

  datatype User = User(
    name: string,
    email: string,
    studentId: string,
    passwordHash: string,
    role: Role,
    department: string,
    year: string)

  type Table = map<UserId, User>

  ghost predicate EmailTaken(users: Table, email: string)
  {
    exists k :: k in users && users[k].email == email
  }

  ghost predicate StudentIdTaken(users: Table, studentId: string)
  {
    exists k :: k in users && users[k].studentId == studentId
  }

  ghost predicate UniqueEmails(users: Table)
  {
    forall j, k :: j in users && k in users && users[j].email == users[k].email ==> j == k
  }

  ghost predicate UniqueStudentIds(users: Table)
  {
    forall j, k :: j in users && k in users && users[j].studentId == users[k].studentId ==> j == k
  }

  /**
   * The table invariant: every identity is below the next one to be handed
   * out, email and student identifier each name at most one user, and every
   * stored password is a digest.
   */
  ghost predicate WellFormed(users: Table, nextId: UserId)
  {
    && (forall k :: k in users ==> k < nextId)
    && UniqueEmails(users)
    && UniqueStudentIds(users)
    && (forall k :: k in users ==> IsDigest(users[k].passwordHash))
  }

  /** `User.findOne({ email })`: some user with this email, if there is one. */
  ghost function OwnerOfEmail(users: Table, email: string): (owner: Option<UserId>)
    ensures owner.Some? ==> owner.value in users && users[owner.value].email == email
    ensures owner.None? ==> !EmailTaken(users, email)
  {
    if EmailTaken(users, email) then
      var k :| k in users && users[k].email == email; Some(k)
    else
      None
  }

  /** `User.findOne({ email, studentId })`: some user matching both, if there is one. */
  ghost function OwnerOfCredentials(users: Table, email: string, studentId: string): (owner: Option<UserId>)
    ensures owner.Some? ==> owner.value in users && users[owner.value].email == email
                            && users[owner.value].studentId == studentId
    ensures owner.None? ==> forall k :: k in users ==> users[k].email != email || users[k].studentId != studentId
  {
    if exists k :: k in users && users[k].email == email && users[k].studentId == studentId then
      var k :| k in users && users[k].email == email && users[k].studentId == studentId; Some(k)
    else
      None
  }

  /** With unique emails, the user a lookup by email finds is the one that has it. */
  lemma OwnerOfEmailIs(users: Table, email: string, k: UserId)
    requires UniqueEmails(users) && k in users && users[k].email == email
    ensures OwnerOfEmail(users, email) == Some(k)
  {
  }

  /** With unique emails, a lookup by email and student identifier finds the one user matching both. */
  lemma OwnerOfCredentialsIs(users: Table, email: string, studentId: string, k: UserId)
    requires UniqueEmails(users) && k in users && users[k].email == email && users[k].studentId == studentId
    ensures OwnerOfCredentials(users, email, studentId) == Some(k)
  {
  }

  /** Adding a record under a fresh identity, with an email and a student identifier not yet taken, keeps the invariant. */
  lemma InsertPreservesWellFormed(users: Table, nextId: UserId, u: User)
    requires WellFormed(users, nextId)
    requires !EmailTaken(users, u.email) && !StudentIdTaken(users, u.studentId)
    requires IsDigest(u.passwordHash)
    ensures nextId !in users
    ensures WellFormed(users[nextId := u], nextId + 1)
  {
    assert forall k :: k in users ==> users[k].email != u.email && users[k].studentId != u.studentId;
  }

  /** Replacing one user's stored digest by another digest keeps the invariant. */
  lemma RehashPreservesWellFormed(users: Table, nextId: UserId, id: UserId, digest: string)
    requires WellFormed(users, nextId) && id in users && IsDigest(digest)
    ensures WellFormed(users[id := users[id].(passwordHash := digest)], nextId)
  {
    var t := users[id := users[id].(passwordHash := digest)];
    assert forall k :: k in t ==> t[k].email == users[k].email && t[k].studentId == users[k].studentId;
  }
}
