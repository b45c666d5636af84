/** Login and password change: ordered checks that end in a write to the
    credential store or to the session. */
module Auth {
  import opened Wrappers
  import opened Seqs
  import opened Text
  import opened Domain
  import opened Credentials
  import Catalog

  /** The failures the service reports; unknown user and wrong password
      share one error so that a caller cannot tell them apart. */
  datatype AuthError =
    | InvalidCredentials
    | ProfileMissing
    | PasswordTooShort
    | PasswordUnchanged
    | IdentityMismatch
    | WrongCurrentPassword
    | UpdateFailed

  /** Steps 1 and 2 of `login`: the account found by username, provided the
      password checks against its stored hash. */
  function Authenticate(rows: seq<AuthRow>, hasher: Hasher, username: string, password: string): Option<UserAuthData> {
    match FindUserAuthDataByUsername(rows, username)
    case None => None
    case Some(data) => if hasher.check(password, data.passwordHash) then Some(data) else None
  }

  /** `loadUserProfile(userId, role)`: a student or instructor must have a
      profile row, an admin has none. */
  function LoadUserProfile(students: map<int, Catalog.StudentRecord>, instructors: map<int, Catalog.InstructorRecord>,
                           userId: int, role: Role): (r: Result<Profile, AuthError>)
    ensures role == Admin ==> r == Ok(NoProfile)
    ensures role == Student ==> (r.Ok? <==> userId in students)
    ensures role == Instructor ==> (r.Ok? <==> userId in instructors)
    ensures r.Ok? && role == Student ==> r.value.OfStudent? && r.value.student.userId == userId
    ensures r.Ok? && role == Instructor ==> r.value.OfInstructor? && r.value.instructor.userId == userId
    ensures r.Err? ==> r.error == ProfileMissing
  {
    match role
    case Student =>
      (match Catalog.FindStudentProfile(students, userId)
       case Some(p) => Ok(OfStudent(p))
       case None => Err(ProfileMissing))
    case Instructor =>
      (match Catalog.FindInstructorProfile(instructors, userId)
       case Some(p) => Ok(OfInstructor(p))
       case None => Err(ProfileMissing))
    case Admin => Ok(NoProfile)
  }

  /** An unknown username and a wrong password are rejected alike. */
  lemma UnknownUserLikeWrongPassword(rows: seq<AuthRow>, nextId: int, hasher: Hasher, username: string, password: string)
    requires TableValid(rows, nextId)
    requires || (forall a :: a in rows ==> a.username != username)
             || (exists a :: a in rows && a.username == username && !hasher.check(password, a.passwordHash))
    ensures Authenticate(rows, hasher, username, password).None?
  {
    match FindUserAuthDataByUsername(rows, username)
    case None =>
    case Some(data) =>
      var a :| a in rows && a.username == username && !hasher.check(password, a.passwordHash);
      var b :| b in rows && b.username == username && b.userId == data.userId && b.passwordHash == data.passwordHash;
      SameKeySameRow(rows, nextId, a, b);
  }

  /** A freshly provisioned account logs in with its password, under the id
      and role it was created with. */
  lemma LoginAfterCreate(rows: seq<AuthRow>, newId: int, hasher: Hasher, username: string, password: string, role: Role)
    requires forall a :: a in rows ==> a.username != username
    requires hasher.check(password, hasher.hash(password))
    ensures Authenticate(rows + [AuthRow(newId, username, hasher.hash(password), RoleName(role), ACTIVE, None)],
                         hasher, username, password)
            == Some(UserAuthData(newId, role, hasher.hash(password)))
  {
    CreateThenFind(rows, newId, username, hasher.hash(password), role);
  }

  /** After a password change the new password logs in to the same account,
      and the old one no longer does unless it also checks against the new
      hash. */
  lemma LoginAfterPasswordChange(rows: seq<AuthRow>, hasher: Hasher, userId: int, username: string,
                                 oldPassword: string, newPassword: string)
    requires FindUserAuthDataByUsername(rows, username).Some?
    requires FindUserAuthDataByUsername(rows, username).value.userId == userId
    requires hasher.check(newPassword, hasher.hash(newPassword))
    ensures var changed := UpdateWhere(rows, HasUserId(userId), SetHash(hasher.hash(newPassword)));
            && Authenticate(changed, hasher, username, newPassword)
               == Some(FindUserAuthDataByUsername(rows, username).value.(passwordHash := hasher.hash(newPassword)))
            && (Authenticate(changed, hasher, username, oldPassword).Some?
                <==> hasher.check(oldPassword, hasher.hash(newPassword)))
  {
    UpdateHashThenFind(rows, userId, hasher.hash(newPassword), username);
  }

  /** A deleted account no longer logs in. */
  lemma LoginAfterDelete(rows: seq<AuthRow>, nextId: int, hasher: Hasher, userId: int, username: string, password: string)
    requires TableValid(rows, nextId)
    requires exists a :: a in rows && a.userId == userId && a.username == username
    ensures Authenticate(Filter(rows, NotUserId(userId)), hasher, username, password).None?
  {
    DeleteThenFind(rows, nextId, userId, username);
  }

  /** Stamping the last login changes nobody's ability to log in. */
  lemma LastLoginKeepsAuthentication(rows: seq<AuthRow>, hasher: Hasher, userId: int, now: int,
                                     username: string, password: string)
    ensures Authenticate(UpdateWhere(rows, HasUserId(userId), SetLastLogin(now)), hasher, username, password)
            == Authenticate(rows, hasher, username, password)
  {
    FindFirstUpdate(rows, HasUserId(userId), SetLastLogin(now), HasUsername(username));
  }

  /** A new password Java's check refuses: null, blank, or shorter than six
      characters. */
  predicate IsWeakPassword(newPassword: Option<string>) {
    newPassword.None? || IsBlank(newPassword.value) || |newPassword.value| < 6
  }

  /** The checks `changePassword` makes before it writes, in their order:
      the new password's strength, that it differs from the old one, that
      the username belongs to the session's account, and the old password. */
  function ChangePasswordCheck(rows: seq<AuthRow>, hasher: Hasher, userId: int, username: string,
                               oldPassword: string, newPassword: Option<string>): Outcome<AuthError>
  {
    if IsWeakPassword(newPassword) then Fail(PasswordTooShort)
    else if newPassword.value == oldPassword then Fail(PasswordUnchanged)
    else match FindUserAuthDataByUsername(rows, username)
      case None => Fail(IdentityMismatch)
      case Some(data) =>
        if data.userId != userId then Fail(IdentityMismatch)
        else if !hasher.check(oldPassword, data.passwordHash) then Fail(WrongCurrentPassword)
        else Pass
  }

  /** The password rules are applied before any credential lookup: they
      reject the same way whatever the store holds. */
  lemma PasswordRulesBeforeLookup(rows: seq<AuthRow>, other: seq<AuthRow>, hasher: Hasher, userId: int,
                                  username: string, oldPassword: string, newPassword: Option<string>)
    requires IsWeakPassword(newPassword) || newPassword == Some(oldPassword)
    ensures ChangePasswordCheck(rows, hasher, userId, username, oldPassword, newPassword)
            == ChangePasswordCheck(other, hasher, userId, username, oldPassword, newPassword)
    ensures ChangePasswordCheck(rows, hasher, userId, username, oldPassword, newPassword)
            == if IsWeakPassword(newPassword) then Fail(PasswordTooShort) else Fail(PasswordUnchanged)
  {
  }

  /** A username that belongs to a different account than the session's is
      refused, whatever the passwords. */
  lemma ForeignUsernameRefused(rows: seq<AuthRow>, nextId: int, hasher: Hasher, userId: int, username: string,
                               oldPassword: string, newPassword: string)
    requires TableValid(rows, nextId)
    requires exists a :: a in rows && a.username == username && a.userId != userId
    requires !IsWeakPassword(Some(newPassword)) && newPassword != oldPassword
    ensures ChangePasswordCheck(rows, hasher, userId, username, oldPassword, Some(newPassword)) == Fail(IdentityMismatch)
  {
    var a :| a in rows && a.username == username && a.userId != userId;
    match FindUserAuthDataByUsername(rows, username)
    case None =>
    case Some(data) =>
      var b :| b in rows && b.username == username && b.userId == data.userId;
      SameKeySameRow(rows, nextId, a, b);
  }

  /** The authentication service with the stores it reads and writes, the
      password hasher, and the session (the current user, if any). */
  class AuthService {
    const auth: UserAuthRepository
    const students: Catalog.StudentProfileRepository
    const instructors: Catalog.InstructorProfileRepository
    const hasher: Hasher
    var session: Option<User>

    ghost predicate Valid()
      reads this, auth
    {
      auth.Valid()
    }

    constructor(auth: UserAuthRepository, students: Catalog.StudentProfileRepository,
                instructors: Catalog.InstructorProfileRepository, hasher: Hasher)
      ensures this.auth == auth && this.students == students && this.instructors == instructors
      ensures this.hasher == hasher && session.None?
    {
      this.auth := auth;
      this.students := students;
      this.instructors := instructors;
      this.hasher := hasher;
      session := None;
    }

    /** `login(username, password)`. A failed authentication changes
        nothing. A successful one stamps the last login first and loads the
        profile second, so a missing profile fails with the stamp possibly
        written; only a full success starts the session. */
    method Login(username: string, password: string, now: int) returns (r: Result<User, AuthError>)
      requires Valid()
      modifies this, auth
      ensures Valid()
      ensures var data := Authenticate(old(auth.rows), hasher, username, password);
              && (data.None? ==> r == Err(InvalidCredentials) && auth.rows == old(auth.rows))
              && (data.Some? ==>
                    && (auth.rows == old(auth.rows)
                        || auth.rows == UpdateWhere(old(auth.rows), HasUserId(data.value.userId), SetLastLogin(now)))
                    && r == match LoadUserProfile(students.students, instructors.instructors, data.value.userId, data.value.role)
                            case Ok(profile) => Ok(User(data.value.userId, username, data.value.role, profile))
                            case Err(e) => Err(e))
      ensures r.Ok? ==> session == Some(r.value)
      ensures r.Err? ==> session == old(session)
    {
      var data := Authenticate(auth.rows, hasher, username, password);
      if data.None? {
        return Err(InvalidCredentials);
      }
      auth.UpdateLastLogin(data.value.userId, now);
      var profile := LoadUserProfile(students.students, instructors.instructors, data.value.userId, data.value.role);
      if profile.Err? {
        return Err(profile.error);
      }
      var user := User(data.value.userId, username, data.value.role, profile.value);
      session := Some(user);
      r := Ok(user);
    }

    /** `changePassword(userId, username, oldPassword, newPassword)`: a
        failed check writes nothing; otherwise the hash of exactly that
        account becomes the hash of the new password, unless the store
        refuses the write. */
    method ChangePassword(userId: int, username: string, oldPassword: string, newPassword: Option<string>)
      returns (r: Outcome<AuthError>)
      requires Valid()
      modifies auth
      ensures Valid()
      ensures var check := ChangePasswordCheck(old(auth.rows), hasher, userId, username, oldPassword, newPassword);
              && (check.Fail? ==> r == check)
              && (check.Pass? ==> r.Pass? || r == Fail(UpdateFailed))
      ensures r.Pass? ==> auth.rows == UpdateWhere(old(auth.rows), HasUserId(userId), SetHash(hasher.hash(newPassword.value)))
      ensures r.Fail? ==> auth.rows == old(auth.rows)
    {
      r := ChangePasswordCheck(auth.rows, hasher, userId, username, oldPassword, newPassword);
      if r.Fail? {
        return;
      }
      var newHash := hasher.hash(newPassword.value);
      var success := auth.UpdatePasswordHash(userId, newHash);
      if !success {
        r := Fail(UpdateFailed);
      }
    }
  }
}
