/** The student workflows: registering for and dropping a section, and the
    grades, transcript and timetable views. */
module Students {
  import opened Wrappers
  import opened Seqs
  import opened Text
  import opened Dates
  import opened Domain
  import opened Settings
  import opened Enrollments
  import Sections
  import Grades
  import Catalog
  import Access

  // ---------------------------------------------------------------------
  // Registration

  /** The reasons `registerForSection` refuses, one per check, in order. */
  datatype RegistrationError =
    | RegistrationMaintenance
    | RegistrationDeadlineNotSet
    | RegistrationDeadlinePassed(deadline: Date)
    | AlreadyInSection
    | SectionMissing
    | SameCourseThisTerm
    | SectionFull
    | RegistrationCreateFailed

  /** The student-facing status test: "Enrolled" ignoring case. */
  predicate IsEnrolledStatus(e: Enrollment) {
    EqualsIgnoreCase(ENROLLED, e.status)
  }

  /** The same-course test over the student's own enrollments: an enrolled
      row whose section belongs to `courseId` and lies in the given term
      (semester compared ignoring case). Rows whose section has vanished are
      skipped. */
  predicate HoldsCourseInTerm(mine: seq<Enrollment>, sections: seq<Section>, courseId: int, semester: string, year: int) {
    exists e :: e in mine && IsEnrolledStatus(e) && Sections.FindById(sections, e.sectionId).Some?
                && Sections.FindById(sections, e.sectionId).value.courseId == courseId
                && EqualsIgnoreCase(semester, Sections.FindById(sections, e.sectionId).value.semester)
                && Sections.FindById(sections, e.sectionId).value.year == year
  }

  /** Every check `registerForSection` makes before it writes, in the order
      it makes them. Note that the same-course check compares the held
      sections against the current term of the settings, not against the
      term of the section being registered for. */
  function RegistrationCheck(settings: Table, rows: seq<Enrollment>, sections: seq<Section>,
                             studentId: int, sectionId: int, today: Date): Outcome<RegistrationError>
  {
    if Access.IsMaintenanceModeOn(settings) then Fail(RegistrationMaintenance)
    else match Deadline(settings, REGISTRATION_DEADLINE_KEY)
      case None => Fail(RegistrationDeadlineNotSet)
      case Some(deadline) =>
        if IsAfter(today, deadline) then Fail(RegistrationDeadlinePassed(deadline))
        else if Exists(rows, studentId, sectionId) then Fail(AlreadyInSection)
        else match Sections.FindById(sections, sectionId)
          case None => Fail(SectionMissing)
          case Some(section) =>
            if HoldsCourseInTerm(ByStudent(rows, studentId), sections, section.courseId,
                                 CurrentSemester(settings), CurrentYear(settings))
            then Fail(SameCourseThisTerm)
            else if CountBySection(rows, sectionId) >= section.capacity then Fail(SectionFull)
            else Pass
  }

  /** With maintenance on, registration is refused whatever else holds. */
  lemma MaintenanceBlocksRegistration(settings: Table, rows: seq<Enrollment>, sections: seq<Section>,
                                      studentId: int, sectionId: int, today: Date)
    requires Access.IsMaintenanceModeOn(settings)
    ensures RegistrationCheck(settings, rows, sections, studentId, sectionId, today) == Fail(RegistrationMaintenance)
  {
  }

  /** An unset deadline refuses; a deadline in the past refuses; on the
      deadline day itself the deadline check passes. */
  lemma RegistrationDeadlineRule(settings: Table, rows: seq<Enrollment>, sections: seq<Section>,
                                 studentId: int, sectionId: int, today: Date)
    requires !Access.IsMaintenanceModeOn(settings)
    ensures Deadline(settings, REGISTRATION_DEADLINE_KEY).None?
            ==> RegistrationCheck(settings, rows, sections, studentId, sectionId, today) == Fail(RegistrationDeadlineNotSet)
    ensures Deadline(settings, REGISTRATION_DEADLINE_KEY).Some? && IsAfter(today, Deadline(settings, REGISTRATION_DEADLINE_KEY).value)
            ==> RegistrationCheck(settings, rows, sections, studentId, sectionId, today)
                == Fail(RegistrationDeadlinePassed(Deadline(settings, REGISTRATION_DEADLINE_KEY).value))
    ensures Deadline(settings, REGISTRATION_DEADLINE_KEY) == Some(today)
            ==> RegistrationCheck(settings, rows, sections, studentId, sectionId, today).Pass?
                || RegistrationCheck(settings, rows, sections, studentId, sectionId, today).error
                   !in {RegistrationDeadlineNotSet, RegistrationDeadlinePassed(today)}
  {
    IsAfterIrreflexive(today);
  }

  /** The new row a successful registration appends. */
  function Registered(nextId: int, studentId: int, sectionId: int): Enrollment {
    Enrollment(nextId, studentId, sectionId, ENROLLED)
  }

  /** A registration that passes the checks leaves the student holding the
      section, so the same request is then refused as a duplicate. */
  lemma RegisterTwiceRefused(settings: Table, rows: seq<Enrollment>, sections: seq<Section>, nextId: int,
                             studentId: int, sectionId: int, today: Date)
    requires RegistrationCheck(settings, rows, sections, studentId, sectionId, today).Pass?
    ensures RegistrationCheck(settings, rows + [Registered(nextId, studentId, sectionId)], sections, studentId, sectionId, today)
            == Fail(AlreadyInSection)
  {
    var rows' := rows + [Registered(nextId, studentId, sectionId)];
    assert rows'[|rows|].studentId == studentId && rows'[|rows|].sectionId == sectionId;
  }

  /** Capacity: the seat count is every row of the section, and a
      registration that takes the last free seat leaves the section exactly
      full, so every further registration for it is refused. */
  lemma RegistrationFillsLastSeat(settings: Table, rows: seq<Enrollment>, sections: seq<Section>, nextId: int,
                                  studentId: int, sectionId: int, today: Date, section: Section, other: int)
    requires RegistrationCheck(settings, rows, sections, studentId, sectionId, today).Pass?
    requires Sections.FindById(sections, sectionId) == Some(section)
    requires CountBySection(rows, sectionId) == section.capacity - 1
    ensures CountBySection(rows + [Registered(nextId, studentId, sectionId)], sectionId) == section.capacity
    ensures RegistrationCheck(settings, rows + [Registered(nextId, studentId, sectionId)], sections, other, sectionId, today).Fail?
  {
    var rows' := rows + [Registered(nextId, studentId, sectionId)];
    CountAppend(rows, Registered(nextId, studentId, sectionId), sectionId);
    FullSectionRefused(settings, rows', sections, other, sectionId, today);
  }

  /** A section whose seats are all taken refuses every registration. */
  lemma FullSectionRefused(settings: Table, rows: seq<Enrollment>, sections: seq<Section>,
                           studentId: int, sectionId: int, today: Date)
    requires Sections.FindById(sections, sectionId).Some?
    requires CountBySection(rows, sectionId) >= Sections.FindById(sections, sectionId).value.capacity
    ensures RegistrationCheck(settings, rows, sections, studentId, sectionId, today).Fail?
  {
    var deadline := Deadline(settings, REGISTRATION_DEADLINE_KEY);
    if !Access.IsMaintenanceModeOn(settings) && deadline.Some? && !IsAfter(today, deadline.value)
       && !Exists(rows, studentId, sectionId) {
      var section := Sections.FindById(sections, sectionId).value;
      assert CountBySection(rows, sectionId) >= section.capacity;
    }
  }

  /** The same-course check as written: holding an enrolled section of the
      course in the CURRENT settings term refuses the registration even when
      the requested section belongs to a different term. */
  lemma SameCourseCheckedAgainstCurrentTerm(settings: Table, rows: seq<Enrollment>, sections: seq<Section>,
                                            studentId: int, sectionId: int, today: Date,
                                            target: Section, held: Enrollment, heldSection: Section)
    requires !Access.IsMaintenanceModeOn(settings)
    requires Deadline(settings, REGISTRATION_DEADLINE_KEY).Some?
    requires !IsAfter(today, Deadline(settings, REGISTRATION_DEADLINE_KEY).value)
    requires !Exists(rows, studentId, sectionId)
    requires Sections.FindById(sections, sectionId) == Some(target)
    requires held in rows && held.studentId == studentId && held.status == ENROLLED
    requires Sections.FindById(sections, held.sectionId) == Some(heldSection)
    requires heldSection.courseId == target.courseId
    requires heldSection.semester == CurrentSemester(settings) && heldSection.year == CurrentYear(settings)
    requires target.semester != heldSection.semester || target.year != heldSection.year
    ensures RegistrationCheck(settings, rows, sections, studentId, sectionId, today) == Fail(SameCourseThisTerm)
  {
    assert held in ByStudent(rows, studentId);
    assert IsEnrolledStatus(held);
  }

  // ---------------------------------------------------------------------
  // Drop

  /** The reasons `dropSection` refuses or fails. */
  datatype DropError =
    | DropMaintenance
    | DropDeadlineNotSet
    | DropDeadlinePassed(deadline: Date)
    | NotOwnEnrollment
    | GradeDeleteFailed
    | EnrollmentDeleteFailed

  /** The checks `dropSection` makes before it deletes anything. */
  function DropCheck(settings: Table, rows: seq<Enrollment>, studentId: int, enrollmentId: int, today: Date): Outcome<DropError>
  {
    if Access.IsMaintenanceModeOn(settings) then Fail(DropMaintenance)
    else match Deadline(settings, DROP_DEADLINE_KEY)
      case None => Fail(DropDeadlineNotSet)
      case Some(deadline) =>
        if IsAfter(today, deadline) then Fail(DropDeadlinePassed(deadline))
        else match FindById(rows, enrollmentId)
          case None => Fail(NotOwnEnrollment)
          case Some(e) => if e.studentId != studentId then Fail(NotOwnEnrollment) else Pass
  }

  /** Only the owner can drop an enrollment, and only an existing one. */
  lemma DropNeedsOwnership(settings: Table, rows: seq<Enrollment>, nextId: int, studentId: int, enrollmentId: int, today: Date)
    requires TableValid(rows, nextId)
    requires DropCheck(settings, rows, studentId, enrollmentId, today).Pass?
    ensures exists e :: e in rows && e.enrollmentId == enrollmentId && e.studentId == studentId
    ensures forall e :: e in rows && e.enrollmentId == enrollmentId ==> e.studentId == studentId
  {
    var found := FindById(rows, enrollmentId).value;
    forall e | e in rows && e.enrollmentId == enrollmentId ensures e.studentId == studentId {
      var i :| 0 <= i < |rows| && rows[i] == e;
      var j :| 0 <= j < |rows| && rows[j] == found;
      assert i == j;
    }
  }

  // ---------------------------------------------------------------------
  // Views

  /** A row of the student's timetable. */
  datatype TimetableEntry = TimetableEntry(courseCode: string, courseTitle: string, dayTime: string, room: string,
                                           instructorName: string)

  /** A row of the transcript; `semester` holds the term text, the
      section's semester and year joined by a space. */
  datatype TranscriptEntry = TranscriptEntry(courseCode: string, courseTitle: string, credits: int, semester: string,
                                             finalGrade: string)

  /** A row of the grades view, every column already display text. */
  datatype GradeRow = GradeRow(courseCode: string, courseTitle: string, component: string, score: string, finalGrade: string)

  /** The instructor column: "Unassigned" without an instructor, the
      instructor's name when the profile exists, "Unknown Instructor"
      otherwise. */
  function InstructorName(section: Section, instructors: map<int, Catalog.InstructorRecord>): (name: string)
    ensures section.instructorId.None? ==> name == "Unassigned"
    ensures section.instructorId.Some? && section.instructorId.value in instructors
            ==> name == instructors[section.instructorId.value].name
  {
    match section.instructorId
    case None => "Unassigned"
    case Some(id) =>
      match Catalog.FindInstructorProfile(instructors, id)
      case Some(p) => p.name
      case None => "Unknown Instructor"
  }

  /** The timetable row for one enrollment; none when its section or the
      section's course is missing. Null slot and room show as "N/A". */
  function TimetableEntryFor(e: Enrollment, sections: seq<Section>, courses: seq<Course>,
                             instructors: map<int, Catalog.InstructorRecord>): Option<TimetableEntry>
  {
    match Sections.FindById(sections, e.sectionId)
    case None => None
    case Some(section) =>
      match Catalog.FindCourse(courses, section.courseId)
      case None => None
      case Some(course) =>
        Some(TimetableEntry(course.code, course.title, section.dayTime.GetOr("N/A"), section.room.GetOr("N/A"),
                            InstructorName(section, instructors)))
  }

  /** The timetable rows in enrollment order, before sorting. */
  function TimetableRows(active: seq<Enrollment>, sections: seq<Section>, courses: seq<Course>,
                         instructors: map<int, Catalog.InstructorRecord>): (r: seq<TimetableEntry>)
    ensures |r| <= |active|
    ensures forall t :: t in r ==> exists e :: e in active && TimetableEntryFor(e, sections, courses, instructors) == Some(t)
  {
    if active == [] then []
    else
      var init := active[..|active| - 1];
      var last := active[|active| - 1];
      TimetableRows(init, sections, courses, instructors)
      + match TimetableEntryFor(last, sections, courses, instructors)
        case None => []
        case Some(t) => [t]
  }

  /** When every section and course the enrollments refer to exists, each
      enrollment shows up in the timetable. */
  lemma {:induction false} TimetableComplete(active: seq<Enrollment>, sections: seq<Section>, courses: seq<Course>,
                                             instructors: map<int, Catalog.InstructorRecord>)
    requires forall e :: e in active ==> TimetableEntryFor(e, sections, courses, instructors).Some?
    ensures |TimetableRows(active, sections, courses, instructors)| == |active|
  {
    if active != [] {
      TimetableComplete(active[..|active| - 1], sections, courses, instructors);
      assert active[|active| - 1] in active;
    }
  }

  /** The timetable's order: by course code. */
  predicate ByCourseCode(a: TimetableEntry, b: TimetableEntry) {
    StrLe(a.courseCode, b.courseCode)
  }

  lemma ByCourseCodeIsPreorder()
    ensures TotalPreorder(ByCourseCode)
  {
    forall a: TimetableEntry, b: TimetableEntry ensures ByCourseCode(a, b) || ByCourseCode(b, a) {
      StrLeTotal(a.courseCode, b.courseCode);
    }
    forall a: TimetableEntry, b: TimetableEntry, c: TimetableEntry | ByCourseCode(a, b) && ByCourseCode(b, c)
      ensures ByCourseCode(a, c)
    {
      StrLeTransitive(a.courseCode, b.courseCode, c.courseCode);
    }
  }

  /** `String.valueOf` of the section's semester and year, as the
      transcript's term column. */
  function TermText(section: Section): string {
    section.semester + " " + IntToString(section.year)
  }

  /** The transcript row for one enrollment: only with a final grade, and
      only when its section and course exist. */
  function TranscriptEntryFor(e: Enrollment, grades: seq<Grade>, sections: seq<Section>, courses: seq<Course>): Option<TranscriptEntry>
  {
    TranscriptEntryOf(Grades.FirstFinalGrade(Grades.ByEnrollment(grades, e.enrollmentId)), e, sections, courses)
  }

  function TranscriptEntryOf(finalGrade: Option<string>, e: Enrollment, sections: seq<Section>, courses: seq<Course>): (r: Option<TranscriptEntry>)
    ensures r.Some? ==> finalGrade == Some(r.value.finalGrade)
  {
    match finalGrade
    case None => None
    case Some(letter) =>
      match Sections.FindById(sections, e.sectionId)
      case None => None
      case Some(section) =>
        match Catalog.FindCourse(courses, section.courseId)
        case None => None
        case Some(course) => Some(TranscriptEntry(course.code, course.title, course.credits, TermText(section), letter))
  }

  /** The transcript rows in enrollment order, before sorting. Every row
      carries a real letter grade. */
  function TranscriptRows(mine: seq<Enrollment>, grades: seq<Grade>, sections: seq<Section>, courses: seq<Course>): (r: seq<TranscriptEntry>)
    ensures |r| <= |mine|
    ensures forall t :: t in r ==> !IsBlank(t.finalGrade)
  {
    if mine == [] then []
    else
      var init := mine[..|mine| - 1];
      TranscriptRows(init, grades, sections, courses)
      + match TranscriptEntryFor(mine[|mine| - 1], grades, sections, courses)
        case None => []
        case Some(t) => [t]
  }

  /** The transcript's order: by term text, then by course code. */
  predicate ByTermThenCode(a: TranscriptEntry, b: TranscriptEntry) {
    || (StrLe(a.semester, b.semester) && a.semester != b.semester)
    || (a.semester == b.semester && StrLe(a.courseCode, b.courseCode))
  }

  lemma ByTermThenCodeIsPreorder()
    ensures TotalPreorder(ByTermThenCode)
  {
    forall a: TranscriptEntry, b: TranscriptEntry ensures ByTermThenCode(a, b) || ByTermThenCode(b, a) {
      StrLeTotal(a.semester, b.semester);
      StrLeTotal(a.courseCode, b.courseCode);
    }
    forall a: TranscriptEntry, b: TranscriptEntry, c: TranscriptEntry | ByTermThenCode(a, b) && ByTermThenCode(b, c)
      ensures ByTermThenCode(a, c)
    {
      if a.semester == c.semester && a.semester != b.semester {
        StrLeAntisymmetric(a.semester, b.semester);
      } else if a.semester != c.semester {
        if StrLe(a.semester, b.semester) && StrLe(b.semester, c.semester) {
          StrLeTransitive(a.semester, b.semester, c.semester);
        }
      } else {
        StrLeTransitive(a.courseCode, b.courseCode, c.courseCode);
      }
    }
  }

  /** The score in tenths, rounded half-up, without its sign. */
  function Tenths(score: real): nat {
    var magnitude := if score < 0.0 then -score else score;
    (magnitude * 10.0 + 0.5).Floor
  }

  /** `String.format("%.1f", score)`: the score rounded half-up to one
      decimal, with a minus sign for a negative score. */
  function FormatScore(score: real): (s: string)
    ensures |s| >= 3 && s[|s| - 2] == '.' && IsDigit(s[|s| - 1])
  {
    (if score < 0.0 then "-" else "") + DigitsOf(Tenths(score) / 10) + "." + [DigitChar(Tenths(score) % 10)]
  }

  /** A whole score shows with one zero decimal: 85 shows as "85.0". */
  lemma WholeScoreShown(n: nat)
    ensures FormatScore(n as real) == DigitsOf(n) + ".0"
  {
    TenthsOfWhole(n);
    WholeScoreDigits(n);
    assert DigitsOf(n) + "." + [DigitChar(0)] == DigitsOf(n) + ".0";
  }

  lemma TenthsOfWhole(n: nat)
    ensures Tenths(n as real) == 10 * n
  {
    var x := (n as real) * 10.0 + 0.5;
    assert (10 * n) as real <= x < (10 * n + 1) as real;
  }

  lemma WholeScoreDigits(n: nat)
    requires Tenths(n as real) == 10 * n
    ensures FormatScore(n as real) == DigitsOf(n) + "." + [DigitChar(0)]
  {
    TenthsOfTen(n, Tenths(n as real));
    assert !(n as real < 0.0);
  }

  lemma TenthsOfTen(n: nat, t: nat)
    requires t == 10 * n
    ensures t / 10 == n && t % 10 == 0
  {
  }

  const NO_GRADES: string := "No Grades Entered"
  const FINAL_COMPONENT: string := "Final Calculated Grade"
  const OVERALL_COMPONENT: string := "Overall Course Grade"

  /** The view of one grade row: a missing score shows "Pending", a
      missing final grade "-". A row named "Final Calculated Grade" (any
      case) is shown as the overall grade, its letter in the score column. */
  function GradeRowOf(courseCode: string, courseTitle: string, g: Grade): (row: GradeRow)
    ensures row.finalGrade == g.finalGrade.GetOr("-")
    ensures EqualsIgnoreCase(FINAL_COMPONENT, g.component)
            ==> row.component == OVERALL_COMPONENT && row.score == row.finalGrade
    ensures !EqualsIgnoreCase(FINAL_COMPONENT, g.component)
            ==> row.component == g.component && (g.score.None? <==> row.score == "Pending")
    ensures !EqualsIgnoreCase(FINAL_COMPONENT, g.component) && g.score.Some?
            ==> row.score == FormatScore(g.score.value)
    ensures row.courseCode == courseCode && row.courseTitle == courseTitle
  {
    var finalDisplay := g.finalGrade.GetOr("-");
    if EqualsIgnoreCase(FINAL_COMPONENT, g.component) then
      GradeRow(courseCode, courseTitle, OVERALL_COMPONENT, finalDisplay, finalDisplay)
    else
      GradeRow(courseCode, courseTitle, g.component,
               match g.score case Some(x) => FormatScore(x) case None => "Pending",
               finalDisplay)
  }

  /** The course code and title shown for an enrollment; "N/A" and
      "Course Not Found" when its section or course is missing. */
  function CourseLabel(e: Enrollment, sections: seq<Section>, courses: seq<Course>): (string, string) {
    match Sections.FindById(sections, e.sectionId)
    case None => ("N/A", "Course Not Found")
    case Some(section) =>
      match Catalog.FindCourse(courses, section.courseId)
      case None => ("N/A", "Course Not Found")
      case Some(course) => (course.code, course.title)
  }

  /** The rows one enrollment contributes: one per grade row, or a single
      "No Grades Entered" row. */
  function GradeRowsFor(e: Enrollment, grades: seq<Grade>, sections: seq<Section>, courses: seq<Course>): (r: seq<GradeRow>)
    ensures |r| >= 1
  {
    var names := CourseLabel(e, sections, courses);
    var mine := Grades.ByEnrollment(grades, e.enrollmentId);
    if mine == [] then [GradeRow(names.0, names.1, NO_GRADES, "-", "-")]
    else GradeRowsOf(names.0, names.1, mine)
  }

  function GradeRowsOf(courseCode: string, courseTitle: string, gs: seq<Grade>): (r: seq<GradeRow>)
    ensures |r| == |gs|
    ensures forall i :: 0 <= i < |gs| ==> r[i] == GradeRowOf(courseCode, courseTitle, gs[i])
  {
    if gs == [] then [] else GradeRowsOf(courseCode, courseTitle, gs[..|gs| - 1]) + [GradeRowOf(courseCode, courseTitle, gs[|gs| - 1])]
  }

  /** All grade rows for the given enrollments, in order. Every enrollment
      contributes at least one row, so no enrolled course disappears from
      the view. */
  function MyGradeRows(mine: seq<Enrollment>, grades: seq<Grade>, sections: seq<Section>, courses: seq<Course>): (r: seq<GradeRow>)
    ensures |r| >= |mine|
  {
    if mine == [] then []
    else MyGradeRows(mine[..|mine| - 1], grades, sections, courses) + GradeRowsFor(mine[|mine| - 1], grades, sections, courses)
  }

  /** The inner loop of `getMyGrades`: one display row per grade row. */
  method ShowGrades(courseCode: string, courseTitle: string, gs: seq<Grade>) returns (rows: seq<GradeRow>)
    ensures rows == GradeRowsOf(courseCode, courseTitle, gs)
  {
    rows := [];
    var j := 0;
    while j < |gs|
      invariant 0 <= j <= |gs|
      invariant rows == GradeRowsOf(courseCode, courseTitle, gs[..j])
    {
      assert gs[..j + 1][..j] == gs[..j];
      rows := rows + [GradeRowOf(courseCode, courseTitle, gs[j])];
      j := j + 1;
    }
    assert gs[..j] == gs;
  }

  lemma MyGradeRowsStep(mine: seq<Enrollment>, i: nat, grades: seq<Grade>, sections: seq<Section>, courses: seq<Course>)
    requires i < |mine|
    ensures MyGradeRows(mine[..i + 1], grades, sections, courses)
            == MyGradeRows(mine[..i], grades, sections, courses) + GradeRowsFor(mine[i], grades, sections, courses)
  {
    assert mine[..i + 1][..i] == mine[..i];
  }

  lemma TranscriptRowsStep(mine: seq<Enrollment>, i: nat, grades: seq<Grade>, sections: seq<Section>, courses: seq<Course>)
    requires i < |mine|
    ensures TranscriptRows(mine[..i + 1], grades, sections, courses)
            == TranscriptRows(mine[..i], grades, sections, courses)
               + match TranscriptEntryFor(mine[i], grades, sections, courses) case None => [] case Some(t) => [t]
  {
    assert mine[..i + 1][..i] == mine[..i];
  }

  // ---------------------------------------------------------------------
  // The service

  /** The student service with the stores it shares with the rest of the
      system. */
  class StudentService {
    const settings: SettingsRepository
    const enrollments: EnrollmentRepository
    const sections: Sections.SectionRepository
    const courses: Catalog.CourseRepository
    const instructors: Catalog.InstructorProfileRepository
    const grades: Grades.GradeRepository

    ghost predicate Valid()
      reads this, enrollments, grades
    {
      enrollments.Valid() && grades.Valid()
    }

    constructor(settings: SettingsRepository, enrollments: EnrollmentRepository, sections: Sections.SectionRepository,
                courses: Catalog.CourseRepository, instructors: Catalog.InstructorProfileRepository,
                grades: Grades.GradeRepository)
      ensures this.settings == settings && this.enrollments == enrollments && this.sections == sections
      ensures this.courses == courses && this.instructors == instructors && this.grades == grades
    {
      this.settings := settings;
      this.enrollments := enrollments;
      this.sections := sections;
      this.courses := courses;
      this.instructors := instructors;
      this.grades := grades;
    }

    /** `registerForSection(studentId, sectionId)` on day `today`. Every
        refusal leaves the enrollments as they were; only the final insert
        writes, adding one "Enrolled" row. */
    method RegisterForSection(studentId: int, sectionId: int, today: Date) returns (r: Outcome<RegistrationError>)
      requires Valid()
      modifies enrollments
      ensures Valid()
      ensures var check := RegistrationCheck(settings.table, old(enrollments.rows), sections.rows, studentId, sectionId, today);
              && (check.Fail? ==> r == check)
              && (check.Pass? ==> r.Pass? || r == Fail(RegistrationCreateFailed))
      ensures r.Pass? ==> enrollments.rows == old(enrollments.rows) + [Registered(old(enrollments.nextId), studentId, sectionId)]
      ensures r.Fail? ==> enrollments.rows == old(enrollments.rows)
    {
      if Access.IsMaintenanceModeOn(settings.table) {
        return Fail(RegistrationMaintenance);
      }
      var deadline := Deadline(settings.table, REGISTRATION_DEADLINE_KEY);
      if deadline.None? {
        return Fail(RegistrationDeadlineNotSet);
      }
      if IsAfter(today, deadline.value) {
        return Fail(RegistrationDeadlinePassed(deadline.value));
      }
      if Exists(enrollments.rows, studentId, sectionId) {
        return Fail(AlreadyInSection);
      }
      var section := Sections.FindById(sections.rows, sectionId);
      if section.None? {
        return Fail(SectionMissing);
      }
      var semester := CurrentSemester(settings.table);
      var year := CurrentYear(settings.table);
      var mine := enrollments.FindByStudentId(studentId);
      if HoldsCourseInTerm(mine, sections.rows, section.value.courseId, semester, year) {
        return Fail(SameCourseThisTerm);
      }
      var count := CountBySection(enrollments.rows, sectionId);
      if count >= section.value.capacity {
        return Fail(SectionFull);
      }
      var ok := enrollments.Create(studentId, sectionId);
      if !ok {
        return Fail(RegistrationCreateFailed);
      }
      r := Pass;
    }

    /** `dropSection(studentId, enrollmentId)` on day `today`. The grades go
        first: if their delete fails nothing is removed; if the enrollment
        delete then fails the grades are already gone. A full drop leaves
        neither grade rows nor the enrollment, and no other enrollment's
        grades change. */
    method DropSection(studentId: int, enrollmentId: int, today: Date) returns (r: Outcome<DropError>)
      requires Valid()
      modifies enrollments, grades
      ensures Valid()
      ensures var check := DropCheck(settings.table, old(enrollments.rows), studentId, enrollmentId, today);
              && (check.Fail? ==> r == check)
              && (check.Pass? ==> r.Pass? || r == Fail(GradeDeleteFailed) || r == Fail(EnrollmentDeleteFailed))
      ensures r.Fail? && r.error != EnrollmentDeleteFailed
              ==> enrollments.rows == old(enrollments.rows) && grades.rows == old(grades.rows)
      ensures r == Fail(EnrollmentDeleteFailed)
              ==> enrollments.rows == old(enrollments.rows)
                  && grades.rows == Filter(old(grades.rows), Grades.NotOfEnrollment(enrollmentId))
      ensures r.Pass? ==> grades.rows == Filter(old(grades.rows), Grades.NotOfEnrollment(enrollmentId))
                          && enrollments.rows == WithoutId(old(enrollments.rows), enrollmentId)
      ensures r.Pass? ==> Grades.ByEnrollment(grades.rows, enrollmentId) == []
                          && FindById(enrollments.rows, enrollmentId).None?
    {
      if Access.IsMaintenanceModeOn(settings.table) {
        return Fail(DropMaintenance);
      }
      var deadline := Deadline(settings.table, DROP_DEADLINE_KEY);
      if deadline.None? {
        return Fail(DropDeadlineNotSet);
      }
      if IsAfter(today, deadline.value) {
        return Fail(DropDeadlinePassed(deadline.value));
      }
      var enrollment := FindById(enrollments.rows, enrollmentId);
      if enrollment.None? || enrollment.value.studentId != studentId {
        return Fail(NotOwnEnrollment);
      }
      var gradesDeleted := grades.DeleteByEnrollmentId(enrollmentId);
      if !gradesDeleted {
        return Fail(GradeDeleteFailed);
      }
      var enrollmentDeleted := enrollments.DeleteById(enrollmentId);
      if !enrollmentDeleted {
        return Fail(EnrollmentDeleteFailed);
      }
      r := Pass;
    }

    /** `getMyTimetable(studentId)`: one row per enrolled section whose
        section and course exist, sorted by course code. */
    method GetMyTimetable(studentId: int) returns (result: seq<TimetableEntry>)
      ensures SortedBy(result, ByCourseCode)
      ensures multiset(result)
              == multiset(TimetableRows(Filter(ByStudent(enrollments.rows, studentId), IsEnrolledStatus),
                                        sections.rows, courses.rows, instructors.instructors))
    {
      var mine := enrollments.FindByStudentId(studentId);
      var entries := CollectTimetable(Filter(mine, IsEnrolledStatus));
      ByCourseCodeIsPreorder();
      result := SortBy(entries, ByCourseCode);
    }

    /** The scan of `getMyTimetable`: the rows in enrollment order. */
    method CollectTimetable(active: seq<Enrollment>) returns (entries: seq<TimetableEntry>)
      ensures entries == TimetableRows(active, sections.rows, courses.rows, instructors.instructors)
    {
      entries := [];
      var i := 0;
      while i < |active|
        invariant 0 <= i <= |active|
        invariant entries == TimetableRows(active[..i], sections.rows, courses.rows, instructors.instructors)
      {
        assert active[..i + 1][..i] == active[..i];
        var entry := TimetableEntryFor(active[i], sections.rows, courses.rows, instructors.instructors);
        if entry.Some? {
          entries := entries + [entry.value];
        }
        i := i + 1;
      }
      assert active[..i] == active;
    }

    /** `generateTranscriptData(studentId)`: one row per enrollment with a
        final grade whose section and course exist, sorted by term and then
        by course code. */
    method GenerateTranscriptData(studentId: int) returns (result: seq<TranscriptEntry>)
      ensures SortedBy(result, ByTermThenCode)
      ensures multiset(result) == multiset(TranscriptRows(ByStudent(enrollments.rows, studentId), grades.rows,
                                                          sections.rows, courses.rows))
      ensures forall t :: t in result ==> !IsBlank(t.finalGrade)
    {
      var mine := enrollments.FindByStudentId(studentId);
      var entries := CollectTranscript(mine);
      result := SortTranscript(entries);
    }

    /** The scan of `generateTranscriptData`: the rows in enrollment order. */
    method CollectTranscript(mine: seq<Enrollment>) returns (entries: seq<TranscriptEntry>)
      ensures entries == TranscriptRows(mine, grades.rows, sections.rows, courses.rows)
    {
      entries := [];
      var i := 0;
      while i < |mine|
        invariant 0 <= i <= |mine|
        invariant entries == TranscriptRows(mine[..i], grades.rows, sections.rows, courses.rows)
      {
        TranscriptRowsStep(mine, i, grades.rows, sections.rows, courses.rows);
        var gs := grades.FindByEnrollmentId(mine[i].enrollmentId);
        var entry := TranscriptEntryOf(Grades.FirstFinalGrade(gs), mine[i], sections.rows, courses.rows);
        if entry.Some? {
          entries := entries + [entry.value];
        }
        i := i + 1;
      }
      assert mine[..i] == mine;
    }

    /** The final sort of `generateTranscriptData`, which keeps every row's
        letter. */
    method SortTranscript(entries: seq<TranscriptEntry>) returns (result: seq<TranscriptEntry>)
      requires forall t :: t in entries ==> !IsBlank(t.finalGrade)
      ensures SortedBy(result, ByTermThenCode) && multiset(result) == multiset(entries)
      ensures forall t :: t in result ==> !IsBlank(t.finalGrade)
    {
      ByTermThenCodeIsPreorder();
      result := SortBy(entries, ByTermThenCode);
      forall t | t in result ensures !IsBlank(t.finalGrade) {
        assert t in multiset(entries);
      }
    }

    /** `getMyGrades(studentId)`: for each of the student's enrollments in
        order, its grade rows, or one "No Grades Entered" row. */
    method GetMyGrades(studentId: int) returns (result: seq<GradeRow>)
      ensures result == MyGradeRows(ByStudent(enrollments.rows, studentId), grades.rows, sections.rows, courses.rows)
      ensures |result| >= |ByStudent(enrollments.rows, studentId)|
    {
      var mine := enrollments.FindByStudentId(studentId);
      result := [];
      var i := 0;
      while i < |mine|
        invariant 0 <= i <= |mine|
        invariant result == MyGradeRows(mine[..i], grades.rows, sections.rows, courses.rows)
      {
        MyGradeRowsStep(mine, i, grades.rows, sections.rows, courses.rows);
        var names := CourseLabel(mine[i], sections.rows, courses.rows);
        var gs := grades.FindByEnrollmentId(mine[i].enrollmentId);
        if gs == [] {
          result := result + [GradeRow(names.0, names.1, NO_GRADES, "-", "-")];
        } else {
          var rows := ShowGrades(names.0, names.1, gs);
          result := result + rows;
        }
        i := i + 1;
      }
      assert mine[..i] == mine;
    }
  }
}
