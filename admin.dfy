/** The administrator's workflows: provisioning accounts (with a
    compensating delete when the profile cannot be written), maintaining
    courses and sections, and the maintenance flag and deadlines. Every
    write except switching maintenance itself is refused while maintenance
    is on. */
module Admin {
  import opened Wrappers
  import opened Seqs
  import opened Text
  import opened Dates
  import opened Domain
  import opened Credentials
  import Settings
  import Catalog
  import Sections
  import Enrollments
  import Access
  import Auth

  /** The failures the service reports, one per refusal. */
  datatype AdminError =
    | Maintenance
    | CredentialsEmpty
    | LoginNotCreated
    | ProfileFieldMissing
    | ProfileNotCreated
    | CourseFieldsEmpty
    | CreditsNotPositive
    | CreditsAboveFour
    | CourseNotCreated
    | TitleEmpty
    | CourseNotUpdated
    | CapacityNotPositive
    | SemesterEmpty
    | YearOutOfRange
    | CapacityBelowEnrolled(enrolled: nat)
    | SectionNotCreated
    | SectionNotUpdated
    | InstructorNotAssigned
    | SectionHasEnrollments
    | SectionNotDeleted
    | MaintenanceNotUpdated
    | DropDeadlineMissing
    | DropDeadlineNotUpdated
    | RegistrationDeadlineMissing
    | RegistrationDeadlineNotUpdated

  const MAX_CREDITS: int := 4
  const FIRST_YEAR: int := 2025
  const LAST_YEAR: int := 2026

  /** `blockIfMaintenance()`. */
  function BlockIfMaintenance(settings: Settings.Table): (r: Outcome<AdminError>)
    ensures r.Fail? <==> Access.IsMaintenanceModeOn(settings)
    ensures r.Fail? ==> r.error == Maintenance
  {
    if Access.IsMaintenanceModeOn(settings) then Fail(Maintenance) else Pass
  }

  // ---------------------------------------------------------------------
  // Accounts

  /** The checks `createUser` makes before any write. */
  function CreateUserCheck(settings: Settings.Table, username: Option<string>, password: Option<string>): Outcome<AdminError> {
    if Access.IsMaintenanceModeOn(settings) then Fail(Maintenance)
    else if NullOrBlank(username) || NullOrBlank(password) then Fail(CredentialsEmpty)
    else Pass
  }

  /** The role's required profile field, checked only once the credential
      row exists: a roll number for a student, a name for an instructor. */
  function RoleFieldCheck(role: Role, name: Option<string>, rollNo: Option<string>): Outcome<AdminError> {
    match role
    case Student => if NullOrBlank(rollNo) then Fail(ProfileFieldMissing) else Pass
    case Instructor => if NullOrBlank(name) then Fail(ProfileFieldMissing) else Pass
    case Admin => Pass
  }

  /** The credential row a successful `createUserAuth` appends. */
  function NewAccount(userId: int, username: string, passwordHash: string, role: Role): AuthRow {
    AuthRow(userId, username, passwordHash, RoleName(role), ACTIVE, None)
  }

  /** The student profiles after provisioning `userId` with `role`: a
      student gains its row, any other role leaves them as they were. */
  function StudentsAfter(students: map<int, Catalog.StudentRecord>, userId: int, role: Role,
                         rollNo: Option<string>, program: string, year: int): map<int, Catalog.StudentRecord>
    requires role == Student ==> rollNo.Some?
  {
    if role == Student then students[userId := Catalog.StudentRecord(rollNo.value, program, year)] else students
  }

  /** The instructor profiles after provisioning, likewise. */
  function InstructorsAfter(instructors: map<int, Catalog.InstructorRecord>, userId: int, role: Role,
                            name: Option<string>, department: string): map<int, Catalog.InstructorRecord>
    requires role == Instructor ==> name.Some?
  {
    if role == Instructor then instructors[userId := Catalog.InstructorRecord(name.value, department)] else instructors
  }

  /** An account provisioned with every check passed logs in with its
      password under the id and role it was created with, and its profile
      loads: the student or instructor row it was given, or none for an
      admin. */
  lemma ProvisionedAccountLogsIn(rows: seq<AuthRow>, nextId: int, hasher: Hasher,
                                 students: map<int, Catalog.StudentRecord>, instructors: map<int, Catalog.InstructorRecord>,
                                 username: string, password: string, role: Role, name: Option<string>,
                                 rollNo: Option<string>, program: string, year: int, department: string)
    requires TableValid(rows, nextId)
    requires forall a :: a in rows ==> a.username != username
    requires hasher.check(password, hasher.hash(password))
    requires RoleFieldCheck(role, name, rollNo).Pass?
    ensures Auth.Authenticate(rows + [NewAccount(nextId, username, hasher.hash(password), role)], hasher, username, password)
            == Some(UserAuthData(nextId, role, hasher.hash(password)))
    ensures var profile := Auth.LoadUserProfile(StudentsAfter(students, nextId, role, rollNo, program, year),
                                                InstructorsAfter(instructors, nextId, role, name, department), nextId, role);
            && profile.Ok?
            && (role == Student ==> profile.value == OfStudent(StudentProfile(nextId, rollNo.value, program)))
            && (role == Instructor ==> profile.value == OfInstructor(InstructorProfile(nextId, name.value, department)))
            && (role == Admin ==> profile.value == NoProfile)
  {
    Auth.LoginAfterCreate(rows, nextId, hasher, username, password, role);
  }

  /** A role field missing means no profile is ever written, whatever the
      stores hold; it is the only profile-side refusal the inputs alone
      decide. */
  lemma RoleFieldRule(role: Role, name: Option<string>, rollNo: Option<string>)
    ensures RoleFieldCheck(role, name, rollNo).Fail?
            <==> (role == Student && NullOrBlank(rollNo)) || (role == Instructor && NullOrBlank(name))
    ensures role == Admin ==> RoleFieldCheck(role, name, rollNo).Pass?
  {
  }

  // ---------------------------------------------------------------------
  // Courses

  /** The rules every course the service writes obeys: a non-blank code
      and credits from 1 to 4. */
  predicate CourseRules(c: Course) {
    !IsBlank(c.code) && 0 < c.credits <= MAX_CREDITS
  }

  predicate CatalogRules(rows: seq<Course>) {
    forall i :: 0 <= i < |rows| ==> CourseRules(rows[i])
  }

  /** The checks `createCourse` makes before it writes. */
  function CreateCourseCheck(settings: Settings.Table, code: Option<string>, title: Option<string>, credits: int): Outcome<AdminError> {
    if Access.IsMaintenanceModeOn(settings) then Fail(Maintenance)
    else if NullOrBlank(code) || NullOrBlank(title) then Fail(CourseFieldsEmpty)
    else if credits <= 0 then Fail(CreditsNotPositive)
    else if credits > MAX_CREDITS then Fail(CreditsAboveFour)
    else Pass
  }

  /** The checks `updateCourse` makes before it writes. */
  function UpdateCourseCheck(settings: Settings.Table, title: Option<string>, credits: int): Outcome<AdminError> {
    if Access.IsMaintenanceModeOn(settings) then Fail(Maintenance)
    else if NullOrBlank(title) then Fail(TitleEmpty)
    else if credits <= 0 then Fail(CreditsNotPositive)
    else if credits > MAX_CREDITS then Fail(CreditsAboveFour)
    else Pass
  }

  /** Outside maintenance, `createCourse` admits exactly the courses that
      obey the rules and have a non-blank title. */
  lemma CreateCourseAdmitsRuleAbiding(settings: Settings.Table, courseId: int, code: Option<string>,
                                      title: Option<string>, credits: int)
    requires !Access.IsMaintenanceModeOn(settings)
    ensures CreateCourseCheck(settings, code, title, credits).Pass?
            <==> code.Some? && title.Some? && !IsBlank(title.value)
                 && CourseRules(Course(courseId, code.value, title.value, credits))
  {
  }

  /** A course written after the checks pass keeps every course within
      the rules, whether it is appended or overwrites a course's title and
      credits. */
  lemma CourseWritesKeepRules(rows: seq<Course>, settings: Settings.Table, courseId: int, nextId: int,
                              code: Option<string>, title: Option<string>, credits: int)
    requires CatalogRules(rows)
    ensures CreateCourseCheck(settings, code, title, credits).Pass?
            ==> CatalogRules(rows + [Course(nextId, code.value, title.value, credits)])
    ensures UpdateCourseCheck(settings, title, credits).Pass?
            ==> CatalogRules(UpdateWhere(rows, Catalog.HasCourseId(courseId),
                                         Catalog.SetTitleAndCredits(Trim(title.value), credits)))
  {
  }

  // ---------------------------------------------------------------------
  // Sections

  /** The rules every section the service writes obeys. */
  predicate SectionRules(s: Section) {
    0 < s.capacity && !IsBlank(s.semester) && FIRST_YEAR <= s.year <= LAST_YEAR
  }

  /** No section holds more rows than its capacity. */
  ghost predicate SeatsWithinCapacity(sections: seq<Section>, enrollments: seq<Enrollment>) {
    forall s :: s in sections ==> Enrollments.CountBySection(enrollments, s.sectionId) <= s.capacity
  }

  /** The checks `createSection` makes, and the first three of
      `updateSection`. */
  function SectionCheck(settings: Settings.Table, capacity: int, semester: Option<string>, year: int): Outcome<AdminError> {
    if Access.IsMaintenanceModeOn(settings) then Fail(Maintenance)
    else if capacity <= 0 then Fail(CapacityNotPositive)
    else if NullOrBlank(semester) then Fail(SemesterEmpty)
    else if year < FIRST_YEAR || year > LAST_YEAR then Fail(YearOutOfRange)
    else Pass
  }

  /** The checks `updateSection` makes before it writes: those of
      creation, then that the new capacity still seats everyone enrolled. */
  function UpdateSectionCheck(settings: Settings.Table, enrollments: seq<Enrollment>, sectionId: int,
                              capacity: int, semester: Option<string>, year: int): Outcome<AdminError>
  {
    var first := SectionCheck(settings, capacity, semester, year);
    if first.Fail? then first
    else
      var enrolled := Enrollments.CountBySection(enrollments, sectionId);
      if enrolled > 0 && capacity < enrolled then Fail(CapacityBelowEnrolled(enrolled)) else Pass
  }

  /** Outside maintenance the section checks admit exactly the sections
      that obey the rules. */
  lemma SectionCheckAdmitsRuleAbiding(settings: Settings.Table, s: Section, semester: Option<string>)
    requires !Access.IsMaintenanceModeOn(settings)
    requires semester.Some? ==> s.semester == semester.value
    ensures SectionCheck(settings, s.capacity, semester, s.year).Pass? <==> semester.Some? && SectionRules(s)
  {
  }

  /** An update that passes its checks leaves the section able to seat
      everyone already enrolled in it, and since every other section keeps
      its capacity, no section ends up over capacity. */
  lemma {:induction false} UpdateKeepsSeats(sections: seq<Section>, enrollments: seq<Enrollment>, settings: Settings.Table,
                                            sectionId: int, instructorId: Option<int>, dayTime: Option<string>,
                                            room: Option<string>, capacity: int, semester: Option<string>, year: int)
    requires SeatsWithinCapacity(sections, enrollments)
    requires UpdateSectionCheck(settings, enrollments, sectionId, capacity, semester, year).Pass?
    ensures Enrollments.CountBySection(enrollments, sectionId) <= capacity
    ensures SeatsWithinCapacity(UpdateWhere(sections, Sections.HasId(sectionId),
                                            Sections.SetDetails(instructorId, dayTime, room, capacity, semester.value, year)),
                                enrollments)
  {
    var update := Sections.SetDetails(instructorId, dayTime, room, capacity, semester.value, year);
    var after := UpdateWhere(sections, Sections.HasId(sectionId), update);
    forall s' | s' in after ensures Enrollments.CountBySection(enrollments, s'.sectionId) <= s'.capacity {
      var i :| 0 <= i < |after| && after[i] == s';
      assert sections[i] in sections;
    }
  }

  /** The checks `deleteSection` makes before it deletes. */
  function DeleteSectionCheck(settings: Settings.Table, enrollments: seq<Enrollment>, sectionId: int): Outcome<AdminError> {
    if Access.IsMaintenanceModeOn(settings) then Fail(Maintenance)
    else if Enrollments.CountBySection(enrollments, sectionId) > 0 then Fail(SectionHasEnrollments)
    else Pass
  }

  /** A section is deleted only when no enrollment row refers to it, so a
      delete never leaves a registration pointing at a missing section; the
      remaining sections stay within capacity. */
  lemma DeleteLeavesNoOrphans(sections: seq<Section>, enrollments: seq<Enrollment>, settings: Settings.Table, sectionId: int)
    requires DeleteSectionCheck(settings, enrollments, sectionId).Pass?
    requires SeatsWithinCapacity(sections, enrollments)
    ensures forall e :: e in enrollments ==> e.sectionId != sectionId
    ensures SeatsWithinCapacity(Filter(sections, Sections.NotId(sectionId)), enrollments)
  {
    Enrollments.CountZero(enrollments, sectionId);
  }

  /** Assigning an instructor changes no capacity, so seats stay within
      capacity. */
  lemma AssignKeepsSeats(sections: seq<Section>, enrollments: seq<Enrollment>, sectionId: int, instructorId: Option<int>)
    requires SeatsWithinCapacity(sections, enrollments)
    ensures SeatsWithinCapacity(UpdateWhere(sections, Sections.HasId(sectionId), Sections.SetInstructor(instructorId)), enrollments)
  {
    var after := UpdateWhere(sections, Sections.HasId(sectionId), Sections.SetInstructor(instructorId));
    forall s' | s' in after ensures Enrollments.CountBySection(enrollments, s'.sectionId) <= s'.capacity {
      var i :| 0 <= i < |after| && after[i] == s';
      assert sections[i] in sections;
    }
  }

  // ---------------------------------------------------------------------
  // Maintenance

  /** With maintenance on every write but `setMaintenanceMode` is refused
      before any of its own checks. */
  lemma MaintenanceBlocksEveryWrite(settings: Settings.Table, enrollments: seq<Enrollment>, username: Option<string>,
                                    password: Option<string>, code: Option<string>, title: Option<string>,
                                    credits: int, sectionId: int, capacity: int, semester: Option<string>, year: int)
    requires Access.IsMaintenanceModeOn(settings)
    ensures CreateUserCheck(settings, username, password) == Fail(Maintenance)
    ensures CreateCourseCheck(settings, code, title, credits) == Fail(Maintenance)
    ensures UpdateCourseCheck(settings, title, credits) == Fail(Maintenance)
    ensures SectionCheck(settings, capacity, semester, year) == Fail(Maintenance)
    ensures UpdateSectionCheck(settings, enrollments, sectionId, capacity, semester, year) == Fail(Maintenance)
    ensures DeleteSectionCheck(settings, enrollments, sectionId) == Fail(Maintenance)
    ensures BlockIfMaintenance(settings) == Fail(Maintenance)
  {
  }

  /** The administrator's service over the stores it writes. */
  class AdminService {
    const settings: Settings.SettingsRepository
    const auth: UserAuthRepository
    const students: Catalog.StudentProfileRepository
    const instructors: Catalog.InstructorProfileRepository
    const courses: Catalog.CourseRepository
    const sections: Sections.SectionRepository
    const enrollments: Enrollments.EnrollmentRepository
    const hasher: Hasher

    ghost predicate Valid()
      reads this, auth, courses, sections
    {
      auth.Valid() && courses.Valid() && sections.Valid()
    }

    constructor(settings: Settings.SettingsRepository, auth: UserAuthRepository,
                students: Catalog.StudentProfileRepository, instructors: Catalog.InstructorProfileRepository,
                courses: Catalog.CourseRepository, sections: Sections.SectionRepository,
                enrollments: Enrollments.EnrollmentRepository, hasher: Hasher)
      ensures this.settings == settings && this.auth == auth && this.students == students
      ensures this.instructors == instructors && this.courses == courses && this.sections == sections
      ensures this.enrollments == enrollments && this.hasher == hasher
    {
      this.settings := settings;
      this.auth := auth;
      this.students := students;
      this.instructors := instructors;
      this.courses := courses;
      this.sections := sections;
      this.enrollments := enrollments;
      this.hasher := hasher;
    }

    /** `createUser(...)`. The credential row is written first; a missing
        role field or a profile write that fails then deletes it again, and
        only if that compensating delete itself fails does the account stay
        behind without a profile. */
    method CreateUser(username: Option<string>, password: Option<string>, role: Role, name: Option<string>,
                      rollNo: Option<string>, program: string, year: int, department: string)
      returns (r: Outcome<AdminError>)
      requires Valid()
      modifies auth, students, instructors
      ensures Valid()
      ensures var check := CreateUserCheck(settings.table, username, password);
              && (check.Fail? ==> r == check && auth.rows == old(auth.rows))
              && (check.Pass? && (exists a :: a in old(auth.rows) && a.username == username.value)
                  ==> r == Fail(LoginNotCreated) && auth.rows == old(auth.rows))
              && (check.Pass? && RoleFieldCheck(role, name, rollNo).Fail? ==> r.Fail?)
      ensures r == Fail(ProfileFieldMissing) ==> RoleFieldCheck(role, name, rollNo).Fail?
      ensures r.Pass? ==> && CreateUserCheck(settings.table, username, password).Pass?
                          && RoleFieldCheck(role, name, rollNo).Pass?
                          && auth.rows == old(auth.rows) + [NewAccount(old(auth.nextId), username.value,
                                                                       hasher.hash(password.value), role)]
                          && students.students == StudentsAfter(old(students.students), old(auth.nextId), role, rollNo, program, year)
                          && instructors.instructors == InstructorsAfter(old(instructors.instructors), old(auth.nextId), role, name, department)
      ensures r.Fail? ==> && (auth.rows == old(auth.rows)
                              || ((r == Fail(ProfileFieldMissing) || r == Fail(ProfileNotCreated))
                                  && auth.rows == old(auth.rows) + [NewAccount(old(auth.nextId), username.value,
                                                                               hasher.hash(password.value), role)]))
                          && students.students == old(students.students)
                          && instructors.instructors == old(instructors.instructors)
    {
      r := CreateUserCheck(settings.table, username, password);
      if r.Fail? {
        return;
      }
      var passwordHash := hasher.hash(password.value);
      ghost var before := auth.rows;
      ghost var added := NewAccount(auth.nextId, username.value, passwordHash, role);
      var newUserId := auth.CreateUserAuth(username.value, passwordHash, role);
      if newUserId.None? {
        return Fail(LoginNotCreated);
      }
      r := ProvisionProfile(newUserId.value, before, added, role, name, rollNo, program, year, department);
    }

    /** The part of `createUser` after the credential row exists: the role
        field check, the profile write, and the compensating delete when
        either fails. */
    method ProvisionProfile(userId: int, ghost before: seq<AuthRow>, ghost added: AuthRow, role: Role,
                            name: Option<string>, rollNo: Option<string>, program: string, year: int,
                            department: string)
      returns (r: Outcome<AdminError>)
      requires auth.Valid() && TableValid(before, userId) && added.userId == userId
      requires auth.rows == before + [added]
      modifies auth, students, instructors
      ensures auth.Valid()
      ensures RoleFieldCheck(role, name, rollNo).Fail? <==> r == Fail(ProfileFieldMissing)
      ensures r.Pass? || r == Fail(ProfileFieldMissing) || r == Fail(ProfileNotCreated)
      ensures r.Pass? ==> && RoleFieldCheck(role, name, rollNo).Pass?
                          && auth.rows == before + [added]
                          && students.students == StudentsAfter(old(students.students), userId, role, rollNo, program, year)
                          && instructors.instructors == InstructorsAfter(old(instructors.instructors), userId, role, name, department)
      ensures r.Fail? ==> && (auth.rows == before || auth.rows == before + [added])
                          && students.students == old(students.students)
                          && instructors.instructors == old(instructors.instructors)
    {
      var fieldMissing := RoleFieldCheck(role, name, rollNo).Fail?;
      var profileCreated := false;
      if !fieldMissing {
        profileCreated := CreateProfile(userId, role, name, rollNo, program, year, department);
      }
      r := Pass;
      if fieldMissing || !profileCreated {
        RollBack(userId, before, added);
        r := if fieldMissing then Fail(ProfileFieldMissing) else Fail(ProfileNotCreated);
      }
    }

    /** The compensating delete of `createUser`: removes the account just
        created, which gives back the credential rows as they were; a
        failure of the delete itself is only logged, leaving the account in
        place. */
    method RollBack(userId: int, ghost before: seq<AuthRow>, ghost added: AuthRow)
      requires auth.Valid() && TableValid(before, userId) && added.userId == userId
      requires auth.rows == before + [added]
      modifies auth
      ensures auth.Valid()
      ensures auth.rows == before || auth.rows == before + [added]
    {
      var rolledBack := auth.DeleteUserAuthById(userId);
      if rolledBack {
        DeleteUndoesCreate(before, userId, added);
      }
    }

    /** The role switch of `createUser`, reached only once the role's
        field is present: a student or instructor profile row, or nothing
        to write for an admin. */
    method CreateProfile(userId: int, role: Role, name: Option<string>, rollNo: Option<string>, program: string,
                         year: int, department: string) returns (profileCreated: bool)
      requires RoleFieldCheck(role, name, rollNo).Pass?
      modifies students, instructors
      ensures role == Admin ==> profileCreated
      ensures profileCreated ==> && students.students == StudentsAfter(old(students.students), userId, role, rollNo, program, year)
                                 && instructors.instructors == InstructorsAfter(old(instructors.instructors), userId, role, name, department)
      ensures !profileCreated ==> students.students == old(students.students) && instructors.instructors == old(instructors.instructors)
    {
      match role
      case Student =>
        profileCreated := students.CreateStudent(userId, rollNo.value, program, year);
      case Instructor =>
        profileCreated := instructors.CreateInstructor(userId, name.value, department);
      case Admin =>
        profileCreated := true;
    }

    /** `createCourse(code, title, credits)`: stores the code and title as
        given. */
    method CreateCourse(code: Option<string>, title: Option<string>, credits: int) returns (r: Outcome<AdminError>)
      requires Valid()
      modifies courses
      ensures Valid()
      ensures var check := CreateCourseCheck(settings.table, code, title, credits);
              && (check.Fail? ==> r == check)
              && (check.Pass? ==> r.Pass? || r == Fail(CourseNotCreated))
      ensures r.Pass? ==> courses.rows == old(courses.rows) + [Course(old(courses.nextId), code.value, title.value, credits)]
      ensures r.Fail? ==> courses.rows == old(courses.rows)
      ensures CatalogRules(old(courses.rows)) ==> CatalogRules(courses.rows)
    {
      r := CreateCourseCheck(settings.table, code, title, credits);
      if r.Fail? {
        return;
      }
      if CatalogRules(courses.rows) {
        CourseWritesKeepRules(courses.rows, settings.table, 0, courses.nextId, code, title, credits);
      }
      var ok := courses.CreateCourse(code.value, title.value, credits);
      if !ok {
        r := Fail(CourseNotCreated);
      }
    }

    /** `updateCourse(courseId, newTitle, newCredits)`: stores the title
        trimmed; an unknown course fails like a store error. */
    method UpdateCourse(courseId: int, title: Option<string>, credits: int) returns (r: Outcome<AdminError>)
      requires Valid()
      modifies courses
      ensures Valid()
      ensures var check := UpdateCourseCheck(settings.table, title, credits);
              && (check.Fail? ==> r == check)
              && (check.Pass? ==> r.Pass? || r == Fail(CourseNotUpdated))
              && (check.Pass? && Catalog.FindCourse(old(courses.rows), courseId).None? ==> r == Fail(CourseNotUpdated))
      ensures r.Pass? ==> courses.rows == UpdateWhere(old(courses.rows), Catalog.HasCourseId(courseId),
                                                      Catalog.SetTitleAndCredits(Trim(title.value), credits))
      ensures r.Fail? ==> courses.rows == old(courses.rows)
      ensures CatalogRules(old(courses.rows)) ==> CatalogRules(courses.rows)
    {
      r := UpdateCourseCheck(settings.table, title, credits);
      if r.Fail? {
        return;
      }
      if CatalogRules(courses.rows) {
        CourseWritesKeepRules(courses.rows, settings.table, courseId, 0, None, title, credits);
      }
      var ok := courses.UpdateCourse(courseId, Trim(title.value), credits);
      if !ok {
        r := Fail(CourseNotUpdated);
      }
    }

    /** `createSection(...)`: a new section that obeys the rules. */
    method CreateSection(courseId: int, instructorId: Option<int>, dayTime: Option<string>, room: Option<string>,
                         capacity: int, semester: Option<string>, year: int) returns (r: Outcome<AdminError>)
      requires Valid()
      modifies sections
      ensures Valid()
      ensures var check := SectionCheck(settings.table, capacity, semester, year);
              && (check.Fail? ==> r == check)
              && (check.Pass? ==> r.Pass? || r == Fail(SectionNotCreated))
      ensures r.Pass? ==> && sections.rows == old(sections.rows)
                                             + [Section(old(sections.nextId), courseId, instructorId, dayTime, room,
                                                        capacity, semester.value, year)]
                          && SectionRules(sections.rows[|sections.rows| - 1])
      ensures r.Fail? ==> sections.rows == old(sections.rows)
    {
      r := SectionCheck(settings.table, capacity, semester, year);
      if r.Fail? {
        return;
      }
      var ok := sections.CreateSection(courseId, instructorId, dayTime, room, capacity, semester.value, year);
      if !ok {
        r := Fail(SectionNotCreated);
      }
    }

    /** `updateSection(...)`: overwrites instructor, slot, room, capacity,
        semester and year, never below the number already enrolled. */
    method UpdateSection(sectionId: int, instructorId: Option<int>, dayTime: Option<string>, room: Option<string>,
                         capacity: int, semester: Option<string>, year: int) returns (r: Outcome<AdminError>)
      requires Valid()
      modifies sections
      ensures Valid()
      ensures var check := UpdateSectionCheck(settings.table, enrollments.rows, sectionId, capacity, semester, year);
              && (check.Fail? ==> r == check)
              && (check.Pass? ==> r.Pass? || r == Fail(SectionNotUpdated))
              && (check.Pass? && Sections.FindById(old(sections.rows), sectionId).None? ==> r == Fail(SectionNotUpdated))
      ensures r.Pass? ==> sections.rows == UpdateWhere(old(sections.rows), Sections.HasId(sectionId),
                                                       Sections.SetDetails(instructorId, dayTime, room, capacity, semester.value, year))
      ensures r.Fail? ==> sections.rows == old(sections.rows)
      ensures SeatsWithinCapacity(old(sections.rows), enrollments.rows) ==> SeatsWithinCapacity(sections.rows, enrollments.rows)
    {
      r := UpdateSectionCheck(settings.table, enrollments.rows, sectionId, capacity, semester, year);
      if r.Fail? {
        return;
      }
      if SeatsWithinCapacity(sections.rows, enrollments.rows) {
        UpdateKeepsSeats(sections.rows, enrollments.rows, settings.table, sectionId, instructorId, dayTime, room,
                         capacity, semester, year);
      }
      var ok := sections.UpdateSection(sectionId, instructorId, dayTime, room, capacity, semester.value, year);
      if !ok {
        r := Fail(SectionNotUpdated);
      }
    }

    /** `assignInstructor(sectionId, instructorId)`. */
    method AssignInstructor(sectionId: int, instructorId: Option<int>) returns (r: Outcome<AdminError>)
      requires Valid()
      modifies sections
      ensures Valid()
      ensures var check := BlockIfMaintenance(settings.table);
              && (check.Fail? ==> r == check)
              && (check.Pass? ==> r.Pass? || r == Fail(InstructorNotAssigned))
              && (check.Pass? && Sections.FindById(old(sections.rows), sectionId).None? ==> r == Fail(InstructorNotAssigned))
      ensures r.Pass? ==> sections.rows == UpdateWhere(old(sections.rows), Sections.HasId(sectionId), Sections.SetInstructor(instructorId))
      ensures r.Fail? ==> sections.rows == old(sections.rows)
      ensures SeatsWithinCapacity(old(sections.rows), enrollments.rows) ==> SeatsWithinCapacity(sections.rows, enrollments.rows)
    {
      r := BlockIfMaintenance(settings.table);
      if r.Fail? {
        return;
      }
      if SeatsWithinCapacity(sections.rows, enrollments.rows) {
        AssignKeepsSeats(sections.rows, enrollments.rows, sectionId, instructorId);
      }
      var ok := sections.UpdateInstructor(sectionId, instructorId);
      if !ok {
        r := Fail(InstructorNotAssigned);
      }
    }

    /** `deleteSection(sectionId)`: refused while any student is enrolled. */
    method DeleteSection(sectionId: int) returns (r: Outcome<AdminError>)
      requires Valid()
      modifies sections
      ensures Valid()
      ensures var check := DeleteSectionCheck(settings.table, enrollments.rows, sectionId);
              && (check.Fail? ==> r == check)
              && (check.Pass? ==> r.Pass? || r == Fail(SectionNotDeleted))
      ensures r.Pass? ==> && sections.rows == Filter(old(sections.rows), Sections.NotId(sectionId))
                          && forall e :: e in enrollments.rows ==> e.sectionId != sectionId
      ensures r.Fail? ==> sections.rows == old(sections.rows)
      ensures SeatsWithinCapacity(old(sections.rows), enrollments.rows) ==> SeatsWithinCapacity(sections.rows, enrollments.rows)
    {
      r := DeleteSectionCheck(settings.table, enrollments.rows, sectionId);
      if r.Fail? {
        return;
      }
      Enrollments.CountZero(enrollments.rows, sectionId);
      var ok := sections.DeleteById(sectionId);
      if !ok {
        r := Fail(SectionNotDeleted);
      }
    }

    /** `setMaintenanceMode(enabled)`: the one write that is never blocked,
        so maintenance can always be switched off again. */
    method SetMaintenanceMode(enabled: bool) returns (r: Outcome<AdminError>)
      modifies settings
      ensures r.Pass? || r == Fail(MaintenanceNotUpdated)
      ensures r.Pass? ==> && settings.table == old(settings.table)[Settings.MAINTENANCE_KEY := Settings.FlagText(enabled)]
                          && Access.IsMaintenanceModeOn(settings.table) == enabled
      ensures r.Fail? ==> settings.table == old(settings.table)
    {
      var ok := settings.SetMaintenanceMode(enabled);
      r := if ok then Pass else Fail(MaintenanceNotUpdated);
    }

    /** `setDropDeadline(deadline)`. */
    method SetDropDeadline(deadline: Option<Date>) returns (r: Outcome<AdminError>)
      modifies settings
      ensures Access.IsMaintenanceModeOn(old(settings.table)) ==> r == Fail(Maintenance)
      ensures !Access.IsMaintenanceModeOn(old(settings.table)) && deadline.None? ==> r == Fail(DropDeadlineMissing)
      ensures !Access.IsMaintenanceModeOn(old(settings.table)) && deadline.Some?
              ==> r.Pass? || r == Fail(DropDeadlineNotUpdated)
      ensures r.Pass? ==> && settings.table == old(settings.table)[Settings.DROP_DEADLINE_KEY := FormatDate(deadline.value)]
                          && Settings.Deadline(settings.table, Settings.DROP_DEADLINE_KEY) == deadline
      ensures r.Fail? ==> settings.table == old(settings.table)
    {
      r := BlockIfMaintenance(settings.table);
      if r.Fail? {
        return;
      }
      if deadline.None? {
        return Fail(DropDeadlineMissing);
      }
      var ok := settings.SetDropDeadline(deadline);
      if !ok {
        r := Fail(DropDeadlineNotUpdated);
      }
    }

    /** `setRegistrationDeadline(deadline)`. */
    method SetRegistrationDeadline(deadline: Option<Date>) returns (r: Outcome<AdminError>)
      modifies settings
      ensures Access.IsMaintenanceModeOn(old(settings.table)) ==> r == Fail(Maintenance)
      ensures !Access.IsMaintenanceModeOn(old(settings.table)) && deadline.None? ==> r == Fail(RegistrationDeadlineMissing)
      ensures !Access.IsMaintenanceModeOn(old(settings.table)) && deadline.Some?
              ==> r.Pass? || r == Fail(RegistrationDeadlineNotUpdated)
      ensures r.Pass? ==> && settings.table == old(settings.table)[Settings.REGISTRATION_DEADLINE_KEY := FormatDate(deadline.value)]
                          && Settings.Deadline(settings.table, Settings.REGISTRATION_DEADLINE_KEY) == deadline
      ensures r.Fail? ==> settings.table == old(settings.table)
    {
      r := BlockIfMaintenance(settings.table);
      if r.Fail? {
        return;
      }
      if deadline.None? {
        return Fail(RegistrationDeadlineMissing);
      }
      var ok := settings.SetRegistrationDeadline(deadline);
      if !ok {
        r := Fail(RegistrationDeadlineNotUpdated);
      }
    }
  }
}
