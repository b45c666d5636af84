/** The records the stores hold and the workflows pass around: accounts and
    roles, profiles, courses, sections, enrollments and grade rows. */
module Domain {
  import opened Wrappers

  /** The three account roles; `RoleName` is the enum constant's `name()`,
      which is what the credential store keeps in its `role` column. */
  datatype Role = Student | Instructor | Admin

  function RoleName(r: Role): string {
    match r
    case Student => "Student"
    case Instructor => "Instructor"
    case Admin => "Admin"
  }

  /** `Role.valueOf(text)`: the role whose constant is spelled exactly
      `text`; any other text throws `IllegalArgumentException`, here `None`. */
  function ParseRole(text: string): (r: Option<Role>)
    ensures r.Some? ==> RoleName(r.value) == text
    ensures r.None? <==> forall role: Role :: RoleName(role) != text
  {
    if text == "Student" then Some(Student)
    else if text == "Instructor" then Some(Instructor)
    else if text == "Admin" then Some(Admin)
    else None
  }

  /** Storing a role and reading it back gives the same role. */
  lemma ParseRoleName(r: Role)
    ensures ParseRole(RoleName(r)) == Some(r)
  {
  }

  /** A student's profile as the profile lookup returns it. */
  datatype StudentProfile = StudentProfile(userId: int, rollNo: string, program: string)

  /** An instructor's profile, keyed by account id. */
  datatype InstructorProfile = InstructorProfile(userId: int, name: string, department: string)

  /** The role-specific profile a session carries; admins have none
      (Java's `null` profile). */
  datatype Profile = NoProfile | OfStudent(student: StudentProfile) | OfInstructor(instructor: InstructorProfile)

  /** The logged-in user a session holds. */
  datatype User = User(userId: int, username: string, role: Role, profile: Profile)

  datatype Course = Course(courseId: int, code: string, title: string, credits: int)

  /** A section of a course in a term; `instructorId`, `dayTime` and
      `room` are nullable columns. */
  datatype Section = Section(
    sectionId: int,
    courseId: int,
    instructorId: Option<int>,
    dayTime: Option<string>,
    room: Option<string>,
    capacity: int,
    semester: string,
    year: int)

  /** A student's registration in a section; `status` is "Enrolled" for
      every row this system inserts. */
  datatype Enrollment = Enrollment(enrollmentId: int, studentId: int, sectionId: int, status: string)

  /** One assessment component of an enrollment. `score` and `finalGrade`
      are nullable; the final letter is copied onto every component row of
      the enrollment. */
  datatype Grade = Grade(gradeId: int, enrollmentId: int, component: string, score: Option<real>, finalGrade: Option<string>)

  /** The password hasher: `hash` turns a password into a stored hash,
      `check(password, storedHash)` says whether they match. Both are
      treated as uninterpreted. */
  datatype Hasher = Hasher(hash: string -> string, check: (string, string) -> bool)

  /** The three components the final grade is computed from. */
  const QUIZ: string := "Quiz"
  const MIDTERM: string := "Midterm"
  const ENDSEM: string := "EndSem"

  /** The status every new enrollment row carries. */
  const ENROLLED: string := "Enrolled"
}
