# University ERP: enrollment, grading and provisioning workflows

This project models the workflow layer of a university ERP and proves
properties of it. It covers the student, instructor, administrator and
authentication services, together with the stores whose behaviour those
services rely on:

- **Students** register for sections and drop them. They can view their
  grades, their transcript and their timetable.
- **Instructors** enter component scores. They turn the scores of a whole
  section into final letters, and they read the gradebook and the
  per-component averages.
- **Administrators** provision accounts, maintain courses and sections,
  set the two deadlines and switch maintenance mode.
- **Users** log in and change their password.
- **The access gate** decides whether maintenance is on and whether a user
  may grade a section.
- **The timetable view** files each class under a weekday and lays out the
  days in a fixed order.

Each store is a class that holds an in-memory table. These are the
settings key/value table and the credential, course, profile, section,
enrollment and grade tables.

- The SQL writes are methods. A store error is a nondeterministic `false`,
  and it leaves the table as it was. Three store methods throw instead of
  returning `false`; "## Left out" names them.
- The SQL reads are functions over the table. A method with a loop, which
  collects rows as it scans, is proved equal to the function.
- The services are classes that share the store objects. Each service
  operation is a method whose contract does three things:
  - it ties the outcome to a function that states the operation's checks
    in their order;
  - it states the whole new state of every store the operation may write;
  - it states the invariant that the operation preserves.

The lemmas beside each operation relate the operations to each other. Some
are round trips, such as a login after provisioning or after a password
change, or a deadline written and read back. Others state frame
properties, such as "a failed check writes nothing" or "a drop removes the
grades and nothing else". Others are system invariants: no section holds
more enrollments than its capacity, every course obeys the credit rule,
and every grade row stays on the 0-100 scale.

The modules follow the source:

| module | what it models |
|---|---|
| `Text` | the blank test, case folding, trimming and decimal parsing |
| `Dates` | the `LocalDate` text form and `isAfter` |
| `Seqs` | filtering, first match, in-place update and sorting by a comparator |
| `Domain` | the records |
| `Settings` | `SettingsRepository` |
| `Credentials` | `UserAuthRepository` |
| `Catalog` | the course and profile stores |
| `Sections` | `SectionRepository` |
| `Enrollments` | `EnrollmentRepository` |
| `Grades` | `GradeRepository` |
| `Access` | `AccessControl` |
| `Auth` | `AuthService` |
| `Students` | `StudentService` |
| `Instructors` | `InstructorService` |
| `Admin` | `AdminService` |
| `Timetable` | the helpers of `TimetablePanel` |

Dates are passed in as a `today` parameter, and login time as `now`.

**The same-course registration guard follows the code.** The guard at
src/main/java/edu/univ/erp/service/StudentService.java:69-74 compares the
sections a student holds with the current term stored in the settings.
A reading of the rule as "the same course in the term of the section
being registered for" would differ; the model follows the code.
`Students.SameCourseCheckedAgainstCurrentTerm` shows the consequence: a
registration for a section in a different term is still refused.

## Model

Source cells are paths relative to the repository root.

| member | source | states |
|---|---|---|
| Settings.SettingValue | src/main/java/edu/univ/erp/data/SettingsRepository.java:16-30 | a value is found exactly when the key is stored, and it is the stored text |
| Settings.CurrentYear | src/main/java/edu/univ/erp/data/SettingsRepository.java:71-78 | the current year is always a 32-bit int |
| Settings.Deadline | src/main/java/edu/univ/erp/data/SettingsRepository.java:80-90 | a deadline is read only from stored text that is exactly the ISO form of that date |
| Settings.MaintenanceRoundTrip | src/main/java/edu/univ/erp/data/SettingsRepository.java:59-65 | after the flag for `enabled` is stored, the maintenance test returns `enabled` |
| Settings.MaintenanceDefaultsOff | src/main/java/edu/univ/erp/data/SettingsRepository.java:59-61 | with no flag stored, maintenance is off |
| Settings.CurrentYearDefault | src/main/java/edu/univ/erp/data/SettingsRepository.java:71-78 | an absent or non-numeric year reads as 0 |
| Settings.CurrentYearRoundTrip | src/main/java/edu/univ/erp/data/SettingsRepository.java:71-78 | a 32-bit year stored as decimal text reads back as that year |
| Settings.DeadlineRoundTrip | src/main/java/edu/univ/erp/data/SettingsRepository.java:80-98 | a date stored by a deadline setter is read back by the getter unchanged |
| Settings.SettingsRepository.SetSettingValue | src/main/java/edu/univ/erp/data/SettingsRepository.java:33-57 | the upsert maps the key to the value and leaves every other key alone; a store error changes nothing |
| Settings.SettingsRepository.SetMaintenanceMode | src/main/java/edu/univ/erp/data/SettingsRepository.java:63-65 | on success only the flag key changes, and the maintenance test then returns `enabled` |
| Settings.SettingsRepository.SetDropDeadline | src/main/java/edu/univ/erp/data/SettingsRepository.java:92-98 | a null date is refused; on success only the drop-deadline key changes, and it reads back as the date |
| Settings.SettingsRepository.SetRegistrationDeadline | src/main/java/edu/univ/erp/data/SettingsRepository.java:112-118 | the same for the registration deadline |
| Access.MaintenanceGate | src/main/java/edu/univ/erp/access/AccessControl.java:17-23 | the gate reports exactly the stored flag: the value just written, and off when no flag is stored |
| Access.CanInstructorGradeSection | src/main/java/edu/univ/erp/access/AccessControl.java:25-46 | grading is allowed only for a logged-in instructor, on an existing section, assigned to that instructor; a missing section is refused |
| Access.CanGradeIff | src/main/java/edu/univ/erp/access/AccessControl.java:38-45 | for an instructor, grading is allowed exactly when the section with that id names the instructor as its own |
| Access.UnassignedSectionClosed | src/main/java/edu/univ/erp/access/AccessControl.java:39 | no user may grade a section that has no instructor |
| Domain.ParseRole | src/main/java/edu/univ/erp/auth/UserAuthRepository.java:22-26 | the text parses to the role whose name it is, and to nothing when it is no role's name |
| Domain.ParseRoleName | src/main/java/edu/univ/erp/auth/UserAuthRepository.java:36-42 | a role stored under its name parses back to the same role |
| Credentials.FindUserAuthDataByUsername | src/main/java/edu/univ/erp/auth/UserAuthRepository.java:15-34 | a result belongs to a row with that username and carries its id, parsed role and hash; a username no row has gives nothing |
| Credentials.FindsStoredAccount | src/main/java/edu/univ/erp/auth/UserAuthRepository.java:15-34 | in a valid table, the lookup of an account's username returns exactly its id, role and hash when the stored role is one of the three, and nothing when it is not |
| Credentials.CreateThenFind | src/main/java/edu/univ/erp/auth/UserAuthRepository.java:36-63 | an appended account is found by its username with its new id, role and hash |
| Credentials.UpdateHashThenFind | src/main/java/edu/univ/erp/auth/UserAuthRepository.java:65-84 | changing an account's hash changes only that account's lookup, and only its hash |
| Credentials.DeleteThenFind | src/main/java/edu/univ/erp/auth/UserAuthRepository.java:86-104 | once an account is deleted, its username is no longer found |
| Credentials.DeleteUndoesCreate | src/main/java/edu/univ/erp/service/AdminService.java:81-88 | deleting the account just appended restores the credential table exactly |
| Credentials.DeleteValid | src/main/java/edu/univ/erp/auth/UserAuthRepository.java:86-104 | a delete keeps ids and usernames unique |
| Credentials.UserAuthRepository.CreateUserAuth | src/main/java/edu/univ/erp/auth/UserAuthRepository.java:36-63 | a taken username gives no id and no row; on success the table gains one active row under the next id, and the username finds it |
| Credentials.UserAuthRepository.UpdatePasswordHash | src/main/java/edu/univ/erp/auth/UserAuthRepository.java:65-84 | a missing account gives false; on success only that account's hash changes |
| Credentials.UserAuthRepository.DeleteUserAuthById | src/main/java/edu/univ/erp/auth/UserAuthRepository.java:86-104 | a missing account gives false; on success exactly that account's rows are removed |
| Credentials.UserAuthRepository.UpdateLastLogin | src/main/java/edu/univ/erp/auth/UserAuthRepository.java:106-115 | the stamp may or may not be written, and no other field of any row changes |
| Catalog.FindCourse | src/main/java/edu/univ/erp/data/CourseRepository.java:20-44 | the result is the stored course with that id, or nothing exactly when none has it |
| Catalog.FindStudentProfile | src/main/java/edu/univ/erp/data/StudentProfileRepository.java:18-42 | a profile is found exactly when the account has a student row, and it carries the stored roll number and program |
| Catalog.FindInstructorProfile | src/main/java/edu/univ/erp/data/InstructorProfileRepository.java:21-44 | the same for instructor rows |
| Catalog.CourseRepository.CreateCourse | src/main/java/edu/univ/erp/data/CourseRepository.java:46-69 | a taken code is refused; on success one course is appended under the next id |
| Catalog.CourseRepository.UpdateCourse | src/main/java/edu/univ/erp/data/CourseRepository.java:89-102 | a missing course gives false; on success only that course's title and credits change |
| Catalog.StudentProfileRepository.CreateStudent | src/main/java/edu/univ/erp/data/StudentProfileRepository.java:48-72 | an account that already has a profile is refused; on success exactly that profile is added |
| Catalog.InstructorProfileRepository.CreateInstructor | src/main/java/edu/univ/erp/data/InstructorProfileRepository.java:46-69 | the same for instructor profiles |
| Sections.FindById | src/main/java/edu/univ/erp/data/SectionRepository.java:57-78 | the result is the stored section with all its fields, or nothing exactly when no section has the id |
| Sections.FindAfterUpdate | src/main/java/edu/univ/erp/data/SectionRepository.java:202-226 | after an update by id, a lookup of that id finds the updated row, and a lookup of any other id finds what it found before |
| Sections.UpdateValid | src/main/java/edu/univ/erp/data/SectionRepository.java:147-173 | an update that keeps ids keeps the ids unique |
| Sections.InstructorUpdated | src/main/java/edu/univ/erp/data/SectionRepository.java:147-173 | reassigning the instructor keeps ids unique, and a lookup of the section finds it with only the instructor changed |
| Sections.DetailsUpdated | src/main/java/edu/univ/erp/data/SectionRepository.java:202-226 | overwriting the details keeps ids unique, and a lookup finds the section with its id and course and every other field new |
| Sections.DeleteValid | src/main/java/edu/univ/erp/data/SectionRepository.java:175-200 | a delete keeps the ids unique and leaves no section with the deleted id |
| Sections.SectionRepository.CreateSection | src/main/java/edu/univ/erp/data/SectionRepository.java:106-145 | on success one section is appended under the next id; on failure nothing changes |
| Sections.SectionRepository.UpdateInstructor | src/main/java/edu/univ/erp/data/SectionRepository.java:147-173 | a missing section gives false; on success only that section's instructor changes (`None` clears it) |
| Sections.SectionRepository.UpdateSection | src/main/java/edu/univ/erp/data/SectionRepository.java:202-226 | a missing section gives false; on success the section keeps its id and course, and every other field takes the new value |
| Sections.SectionRepository.DeleteById | src/main/java/edu/univ/erp/data/SectionRepository.java:175-200 | a missing section gives false; on success exactly that section is gone |
| Sections.SectionRepository.FindByInstructorIdAndTerm | src/main/java/edu/univ/erp/data/SectionRepository.java:80-104 | the scan returns exactly the sections matching instructor, semester and year, in table order |
| Enrollments.RosterDistinct | src/main/java/edu/univ/erp/data/EnrollmentRepository.java:112-133 | a section's roster, taken from a valid table, names each enrollment once |
| Enrollments.FindById | src/main/java/edu/univ/erp/data/EnrollmentRepository.java:135-155 | the result is the row with that id, or nothing exactly when none has it |
| Enrollments.CountAppend | src/main/java/edu/univ/erp/data/EnrollmentRepository.java:157-169 | appending a row adds one to the count of its own section and nothing to any other count |
| Enrollments.CountZero | src/main/java/edu/univ/erp/data/SectionRepository.java:41-55 | a section's count is 0 exactly when no row, of any status, refers to it |
| Enrollments.WithoutId | src/main/java/edu/univ/erp/data/EnrollmentRepository.java:90-110 | the rows left by a delete are exactly those with another id |
| Enrollments.WithoutIdValid | src/main/java/edu/univ/erp/data/EnrollmentRepository.java:90-110 | a delete keeps the ids unique and keeps one row per student and section |
| Enrollments.EnrollmentRepository.Create | src/main/java/edu/univ/erp/data/EnrollmentRepository.java:38-61 | an existing pair is refused; on success one "Enrolled" row is appended under the next id |
| Enrollments.EnrollmentRepository.DeleteById | src/main/java/edu/univ/erp/data/EnrollmentRepository.java:90-110 | a missing id gives false; on success exactly that row is gone |
| Enrollments.EnrollmentRepository.FindByStudentId | src/main/java/edu/univ/erp/data/EnrollmentRepository.java:64-87 | the scan returns exactly the student's rows, in table order |
| Enrollments.EnrollmentRepository.FindBySectionId | src/main/java/edu/univ/erp/data/EnrollmentRepository.java:112-133 | the scan returns exactly the section's rows, in table order |
| Grades.FindByEnrollmentAndComponent | src/main/java/edu/univ/erp/data/GradeRepository.java:52-80 | the result is a row with that key, or nothing exactly when none has it |
| Grades.StoredLetter | src/main/java/edu/univ/erp/data/GradeRepository.java:163-168 | a null or blank letter is stored as null; any other letter is stored as it is |
| Grades.FirstFinalGrade | src/main/java/edu/univ/erp/service/InstructorService.java:92-96 | the result is the final grade of the first row whose final grade is neither null nor blank, or nothing exactly when every row's is null or blank |
| Grades.SaveThenFind | src/main/java/edu/univ/erp/data/GradeRepository.java:83-151 | after saving, the key's row has the new score; an existing row keeps its id and final grade, and a new row has no final grade |
| Grades.SaveKeepsOtherKeys | src/main/java/edu/univ/erp/data/GradeRepository.java:83-151 | saving one key leaves the lookup of every other key unchanged |
| Grades.SaveKeepsInvariants | src/main/java/edu/univ/erp/data/GradeRepository.java:83-151 | saving keeps ids unique and never creates a second row for a key |
| Grades.ScoreUpdateKeepsInvariants | src/main/java/edu/univ/erp/data/GradeRepository.java:91-93 | rewriting the score of a row keeps ids unique and below the next id, and keeps keys unique |
| Grades.InsertKeepsInvariants | src/main/java/edu/univ/erp/data/GradeRepository.java:94-96 | a new row under the next id and an unused key keeps ids unique and keys unique |
| Grades.FinalGradeOnEveryRow | src/main/java/edu/univ/erp/data/GradeRepository.java:153-182 | every row of the enrollment carries the stored letter, none is added or lost, and other enrollments' rows are unchanged |
| Grades.DeleteLeavesOthers | src/main/java/edu/univ/erp/data/GradeRepository.java:184-201 | no row of the enrollment is left, and every other enrollment keeps exactly its rows |
| Grades.DeleteKeepsInvariants | src/main/java/edu/univ/erp/data/GradeRepository.java:184-201 | a delete keeps ids unique and keys unduplicated |
| Grades.GradeRepository.FindByEnrollmentId | src/main/java/edu/univ/erp/data/GradeRepository.java:18-49 | the scan returns exactly the enrollment's rows, in table order |
| Grades.GradeRepository.SaveOrUpdateScore | src/main/java/edu/univ/erp/data/GradeRepository.java:83-151 | on success the table is the upserted table; on failure it is unchanged; no duplicate key ever arises |
| Grades.GradeRepository.UpdateFinalGradeForEnrollment | src/main/java/edu/univ/erp/data/GradeRepository.java:153-182 | on success every row of the enrollment carries the stored letter, and nothing else changes |
| Grades.GradeRepository.DeleteByEnrollmentId | src/main/java/edu/univ/erp/data/GradeRepository.java:184-201 | on success exactly the enrollment's rows are removed, even when there are none |
| Auth.LoadUserProfile | src/main/java/edu/univ/erp/service/AuthService.java:99-120 | an admin has no profile; a student or instructor loads exactly when their profile row exists, and otherwise gets "profile missing" |
| Auth.UnknownUserLikeWrongPassword | src/main/java/edu/univ/erp/service/AuthService.java:30-40 | an unknown username and a wrong password are both refused |
| Auth.LoginAfterCreate | src/main/java/edu/univ/erp/service/AuthService.java:30-40 | a freshly created account logs in with its password, under its id and role |
| Auth.LoginAfterPasswordChange | src/main/java/edu/univ/erp/service/AuthService.java:84-93 | after a change the new password logs in, and the old one logs in only if it also matches the new hash |
| Auth.LoginAfterDelete | src/main/java/edu/univ/erp/service/AuthService.java:30-32 | a deleted account no longer logs in |
| Auth.LastLoginKeepsAuthentication | src/main/java/edu/univ/erp/service/AuthService.java:42-43 | stamping the last login changes nobody's ability to log in |
| Auth.PasswordRulesBeforeLookup | src/main/java/edu/univ/erp/service/AuthService.java:61-66 | a weak or unchanged new password is refused with its own error, whatever the credential table holds |
| Auth.ForeignUsernameRefused | src/main/java/edu/univ/erp/service/AuthService.java:69-75 | a username that belongs to another account is refused as a mismatch |
| Auth.AuthService.Login | src/main/java/edu/univ/erp/service/AuthService.java:27-55 | a failed authentication changes nothing; otherwise the stamp may be written, and the profile load decides; only a success starts the session |
| Auth.AuthService.ChangePassword | src/main/java/edu/univ/erp/service/AuthService.java:58-96 | a failed check writes nothing; on success only that account's hash becomes the hash of the new password |
| Students.MaintenanceBlocksRegistration | src/main/java/edu/univ/erp/service/StudentService.java:32-35 | with maintenance on, registration is refused |
| Students.RegistrationDeadlineRule | src/main/java/edu/univ/erp/service/StudentService.java:38-50 | an unset deadline or a deadline in the past refuses; on the deadline day itself the check passes |
| Students.RegisterTwiceRefused | src/main/java/edu/univ/erp/service/StudentService.java:53-57 | after a registration, the same request is refused as a duplicate |
| Students.RegistrationFillsLastSeat | src/main/java/edu/univ/erp/service/StudentService.java:83-93 | taking the last free seat leaves the section exactly full, and the next registration for it is refused |
| Students.FullSectionRefused | src/main/java/edu/univ/erp/service/StudentService.java:84-87 | when the enrolled count has reached the capacity, every registration for the section is refused |
| Students.SameCourseCheckedAgainstCurrentTerm | src/main/java/edu/univ/erp/service/StudentService.java:68-80 | holding the course in the current settings term refuses the registration, even for a section in another term |
| Students.DropNeedsOwnership | src/main/java/edu/univ/erp/service/StudentService.java:160-166 | a drop passes its checks only for an existing enrollment that belongs to the student |
| Students.InstructorName | src/main/java/edu/univ/erp/service/StudentService.java:304-309 | the instructor column is "Unassigned" with no instructor, and otherwise the profile's name when it exists |
| Students.TimetableRows | src/main/java/edu/univ/erp/service/StudentService.java:289-313 | every timetable row comes from one of the enrollments, and there are never more rows than enrollments |
| Students.TimetableComplete | src/main/java/edu/univ/erp/service/StudentService.java:289-313 | when every section and course exists, each enrollment gets a row |
| Students.ByCourseCodeIsPreorder | src/main/java/edu/univ/erp/service/StudentService.java:315 | ordering by course code is a total preorder, as a comparator requires |
| Students.TranscriptEntryOf | src/main/java/edu/univ/erp/service/StudentService.java:248-262 | a transcript row carries the enrollment's final grade |
| Students.TranscriptRows | src/main/java/edu/univ/erp/service/StudentService.java:244-271 | every transcript row has a non-blank letter, and there are never more rows than enrollments |
| Students.ByTermThenCodeIsPreorder | src/main/java/edu/univ/erp/service/StudentService.java:272 | ordering by term and then by code is a total preorder |
| Students.FormatScore | src/main/java/edu/univ/erp/service/StudentService.java:218 | the text ends in a point and one digit |
| Students.WholeScoreShown | src/main/java/edu/univ/erp/service/StudentService.java:218 | a whole score shows with one zero decimal, such as "85.0" |
| Students.GradeRowOf | src/main/java/edu/univ/erp/service/StudentService.java:217-227 | every row carries the course code and title; the final column is the letter or "-"; a final-grade row shows as the overall grade with its letter as the score; any other row shows its own component, its score in one-decimal form, and "Pending" exactly when it has no score |
| Students.GradeRowsFor | src/main/java/edu/univ/erp/service/StudentService.java:213-228 | every enrollment contributes at least one row |
| Students.GradeRowsOf | src/main/java/edu/univ/erp/service/StudentService.java:217-227 | one display row per grade row, in order |
| Students.MyGradeRows | src/main/java/edu/univ/erp/service/StudentService.java:198-229 | no enrollment disappears from the grades view |
| Students.ShowGrades | src/main/java/edu/univ/erp/service/StudentService.java:217-227 | the inner loop builds exactly one display row per grade row |
| Students.StudentService.RegisterForSection | src/main/java/edu/univ/erp/service/StudentService.java:29-95 | the first failing check is the result, and nothing is written; otherwise exactly one "Enrolled" row is appended, unless the insert fails |
| Students.StudentService.DropSection | src/main/java/edu/univ/erp/service/StudentService.java:135-188 | a failed check deletes nothing; a failed grade delete keeps everything; a full drop removes the grades and then the enrollment, and nothing else |
| Students.StudentService.GetMyTimetable | src/main/java/edu/univ/erp/service/StudentService.java:278-319 | the result is sorted by course code and is a rearrangement of the rows of the student's enrolled sections |
| Students.StudentService.GenerateTranscriptData | src/main/java/edu/univ/erp/service/StudentService.java:234-276 | the result is sorted by term and then code, is a rearrangement of the graded enrollments' rows, and carries no blank letter |
| Students.StudentService.CollectTimetable | src/main/java/edu/univ/erp/service/StudentService.java:289-313 | the loop builds exactly the timetable rows of the active enrollments, skipping those whose section or course is missing |
| Students.StudentService.CollectTranscript | src/main/java/edu/univ/erp/service/StudentService.java:244-271 | the loop builds exactly the transcript rows of the enrollments with a final letter and a known section and course |
| Students.StudentService.SortTranscript | src/main/java/edu/univ/erp/service/StudentService.java:272 | the result is sorted by term and then code, is a rearrangement of the input, and keeps every letter non-blank |
| Students.StudentService.GetMyGrades | src/main/java/edu/univ/erp/service/StudentService.java:190-232 | the result is the grades view of the student's enrollments, in order, with at least one row each |
| Instructors.CalculateLetterGrade | src/main/java/edu/univ/erp/service/InstructorService.java:224-233 | the letter is that of the first boundary met; "F" exactly when none is met |
| Instructors.LetterMonotone | src/main/java/edu/univ/erp/service/InstructorService.java:224-233 | a higher score never earns a worse letter |
| Instructors.BoundaryCheck | src/main/java/edu/univ/erp/service/InstructorService.java:146-152 | boundaries pass exactly when there are five, strictly descending, each in [0, 100] |
| Instructors.ValidateBoundaries | src/main/java/edu/univ/erp/service/InstructorService.java:146-152 | the two validation loops decide exactly as the boundary rule does |
| Instructors.BoundaryEarnsItsLetter | src/main/java/edu/univ/erp/service/InstructorService.java:224-233 | under accepted boundaries a score on a boundary earns that boundary's letter, and 100 earns "A+" |
| Instructors.FirstScoreWins | src/main/java/edu/univ/erp/service/InstructorService.java:171-173 | a component has a score exactly when some row scores it, and the first such row's score wins |
| Instructors.UnscoredComponentAbsent | src/main/java/edu/univ/erp/service/InstructorService.java:79-89 | a component with no scored row is absent from the score map |
| Instructors.FinalVerdict | src/main/java/edu/univ/erp/service/InstructorService.java:176-202 | a graded verdict always carries a real letter |
| Instructors.DecideVerdict | src/main/java/edu/univ/erp/service/InstructorService.java:170-201 | the inline decision (missing component, sum over 100, clamping, letter) is the verdict rule |
| Instructors.VerdictLetter | src/main/java/edu/univ/erp/service/InstructorService.java:185-206 | a letter is written for every verdict except a sum over 100 |
| Instructors.VerdictLetterStored | src/main/java/edu/univ/erp/service/InstructorService.java:186 | the letters the grading writes are stored unchanged |
| Instructors.MissingComponentIsIncomplete | src/main/java/edu/univ/erp/service/InstructorService.java:176-188 | an enrollment missing a Quiz, Midterm or EndSem score is incomplete |
| Instructors.Lookup | src/main/java/edu/univ/erp/service/InstructorService.java:103-105 | a gradebook score column is filled exactly when the component has a score |
| Instructors.GradebookRowFor | src/main/java/edu/univ/erp/service/InstructorService.java:71-108 | the line carries the enrollment, the student and the first final grade of the enrollment's rows |
| Instructors.GradebookMatchesGrading | src/main/java/edu/univ/erp/service/InstructorService.java:79-105 | a gradebook line has an empty score column exactly when the final grading finds the enrollment incomplete, and otherwise the letter follows from the scores shown |
| Instructors.SumBounds | src/main/java/edu/univ/erp/service/InstructorService.java:256 | a sum of n values in [lo, hi] lies in [n*lo, n*hi] |
| Instructors.AverageBounds | src/main/java/edu/univ/erp/service/InstructorService.java:256-257 | an average stays within the range of its values |
| Instructors.AddScores | src/main/java/edu/univ/erp/service/InstructorService.java:246-250 | a component gets a list exactly when some row scores it, and lists are never empty |
| Instructors.AddScoresOnScale | src/main/java/edu/univ/erp/service/InstructorService.java:244-251 | when every gathered list and every added score is on the 0-100 scale, every list stays on it |
| Instructors.GatherScores | src/main/java/edu/univ/erp/service/InstructorService.java:246-250 | the inner loop builds exactly the lists of the specification |
| Instructors.SectionScores | src/main/java/edu/univ/erp/service/InstructorService.java:244-251 | the gathered lists are non-empty and, with scores on the scale, stay on it |
| Instructors.ScoredComponentsListed | src/main/java/edu/univ/erp/service/InstructorService.java:244-251 | a component is listed exactly when some enrollment of the roster has a score for it |
| Instructors.AverageEach | src/main/java/edu/univ/erp/service/InstructorService.java:252-261 | the loop records the average of each non-empty list, and nothing else |
| Instructors.StatisticsOnScale | src/main/java/edu/univ/erp/service/InstructorService.java:235-264 | every average is in [0, 100], and a component has an average exactly when the roster scored it |
| Instructors.EntryKeepsScale | src/main/java/edu/univ/erp/service/InstructorService.java:129-131 | an accepted entry keeps every stored score on the scale |
| Instructors.ScoreVisibleAfterSave | src/main/java/edu/univ/erp/data/GradeRepository.java:83-151 | a saved score is the one the gradebook and the grading read back for that component |
| Instructors.BoundariesCheckedAfterAccess | src/main/java/edu/univ/erp/service/InstructorService.java:143-152 | once maintenance and access pass, only the boundary rule decides |
| Instructors.GradedLetterShown | src/main/java/edu/univ/erp/service/InstructorService.java:168-216 | after a successful run, the final grade a reader sees is the letter the verdict earned |
| Instructors.EmptyRosterWritesNothing | src/main/java/edu/univ/erp/service/InstructorService.java:155-156 | a section without enrollments is graded successfully and no row changes |
| Instructors.GradingStep | src/main/java/edu/univ/erp/service/InstructorService.java:168-216 | one turn of the grading loop keeps its invariant, and the verdict is decided on rows no earlier turn touched |
| Instructors.InstructorService.GradeRoster | src/main/java/edu/univ/erp/service/InstructorService.java:168-216 | after the loop over the roster, the grading report holds for the whole roster with the number of failures counted |
| Instructors.InstructorService.GradeNext | src/main/java/edu/univ/erp/service/InstructorService.java:169-216 | one enrollment is finalized and the grading invariant extends to it, a sum over 100 or a failed write adding one failure |
| Instructors.InstructorService.GetGradebookForSection | src/main/java/edu/univ/erp/service/InstructorService.java:61-112 | one gradebook line per enrollment of the section, in roster order |
| Instructors.InstructorService.EnterScore | src/main/java/edu/univ/erp/service/InstructorService.java:115-136 | a failed check writes nothing; otherwise the score is upserted, unless the store refuses; no duplicate key arises |
| Instructors.InstructorService.FinalizeEnrollment | src/main/java/edu/univ/erp/service/InstructorService.java:170-206 | the verdict is decided on the enrollment's rows, and its letter, if any, is written onto every one of them |
| Instructors.InstructorService.ComputeFinalGrades | src/main/java/edu/univ/erp/service/InstructorService.java:138-222 | a failed check writes nothing; otherwise only final grades of the roster change, success means every enrollment carries its letter, a sum over 100 means failure, and each failure is traced |
| Instructors.InstructorService.GetSectionStatistics | src/main/java/edu/univ/erp/service/InstructorService.java:235-264 | the result is the average of each scored component over the section's roster |
| Admin.BlockIfMaintenance | src/main/java/edu/univ/erp/service/AdminService.java:31-35 | the guard fails exactly when maintenance is on |
| Admin.ProvisionedAccountLogsIn | src/main/java/edu/univ/erp/service/AdminService.java:47-70 | an account provisioned with every check passed logs in under its id and role, and loads the profile it was given (none for an admin) |
| Admin.RoleFieldRule | src/main/java/edu/univ/erp/service/AdminService.java:57-71 | the profile step refuses exactly a student without a roll number or an instructor without a name |
| Admin.CreateCourseAdmitsRuleAbiding | src/main/java/edu/univ/erp/service/AdminService.java:105-109 | outside maintenance, creation admits exactly a non-blank code and title with credits 1 to 4 |
| Admin.CourseWritesKeepRules | src/main/java/edu/univ/erp/service/AdminService.java:117-132 | a create or update that passes its checks keeps every course within the credit rules |
| Admin.SectionCheckAdmitsRuleAbiding | src/main/java/edu/univ/erp/service/AdminService.java:138-141 | outside maintenance, the section checks admit exactly a positive capacity, a non-blank semester and a year in 2025..2026 |
| Admin.UpdateKeepsSeats | src/main/java/edu/univ/erp/service/AdminService.java:158-161 | an update that passes its checks seats everyone enrolled, so no section is over capacity |
| Admin.DeleteLeavesNoOrphans | src/main/java/edu/univ/erp/service/AdminService.java:183-186 | a section is deleted only when no enrollment refers to it |
| Admin.AssignKeepsSeats | src/main/java/edu/univ/erp/service/AdminService.java:169-177 | assigning an instructor keeps every section within capacity |
| Admin.MaintenanceBlocksEveryWrite | src/main/java/edu/univ/erp/service/AdminService.java:31-35 | with maintenance on, every guarded write is refused before its own checks |
| Admin.AdminService.CreateUser | src/main/java/edu/univ/erp/service/AdminService.java:38-91 | a failed check or a taken username writes nothing; a missing role field or a failed profile write deletes the new account again; a success leaves one new account and its profile |
| Admin.AdminService.RollBack | src/main/java/edu/univ/erp/service/AdminService.java:83-86 | the compensating delete restores the credential table, or leaves the account when the delete fails |
| Admin.AdminService.CreateProfile | src/main/java/edu/univ/erp/service/AdminService.java:57-71 | an admin needs no profile; otherwise exactly the role's profile is written, or nothing |
| Admin.AdminService.ProvisionProfile | src/main/java/edu/univ/erp/service/AdminService.java:55-88 | a missing role field gives exactly the field error; any failure leaves the profile tables as they were; success writes exactly the role's profile |
| Admin.AdminService.CreateCourse | src/main/java/edu/univ/erp/service/AdminService.java:101-115 | the first failing check is the result and nothing is written; on success one course is appended; the credit rules hold throughout |
| Admin.AdminService.UpdateCourse | src/main/java/edu/univ/erp/service/AdminService.java:117-132 | the same, storing the trimmed title; a missing course is refused |
| Admin.AdminService.CreateSection | src/main/java/edu/univ/erp/service/AdminService.java:134-147 | a failed check writes nothing; on success one rule-abiding section is appended |
| Admin.AdminService.UpdateSection | src/main/java/edu/univ/erp/service/AdminService.java:149-167 | a failed check, including capacity below the enrolled count, writes nothing; seats stay within capacity |
| Admin.AdminService.AssignInstructor | src/main/java/edu/univ/erp/service/AdminService.java:169-177 | blocked in maintenance; on success only the instructor changes; seats stay within capacity |
| Admin.AdminService.DeleteSection | src/main/java/edu/univ/erp/service/AdminService.java:179-191 | refused while anyone is enrolled; on success the section is gone and no enrollment refers to it |
| Admin.AdminService.SetMaintenanceMode | src/main/java/edu/univ/erp/service/AdminService.java:195-201 | never blocked; on success the gate reports `enabled` |
| Admin.AdminService.SetDropDeadline | src/main/java/edu/univ/erp/service/AdminService.java:203-212 | refused in maintenance or for a null date; on success the deadline reads back as the date |
| Admin.AdminService.SetRegistrationDeadline | src/main/java/edu/univ/erp/service/AdminService.java:214-223 | the same for the registration deadline |
| Timetable.RunLength | src/main/java/edu/univ/erp/ui/component/TimetablePanel.java:164 | the first token runs up to the first separator |
| Timetable.DayOfToken | src/main/java/edu/univ/erp/ui/component/TimetablePanel.java:165-173 | a token names a day only when it has at least three letters and starts with a weekday's initial, and the day is a weekday |
| Timetable.FirstDay | src/main/java/edu/univ/erp/ui/component/TimetablePanel.java:165-173 | the day found is a weekday |
| Timetable.FirstDayNoneIff | src/main/java/edu/univ/erp/ui/component/TimetablePanel.java:165-175 | no day is found exactly when no token names one |
| Timetable.NormalizeDay | src/main/java/edu/univ/erp/ui/component/TimetablePanel.java:156-176 | the result is a weekday or "Unknown", and "Unknown" for a null or blank slot |
| Timetable.NormalizeDayNamesWeekdayIff | src/main/java/edu/univ/erp/ui/component/TimetablePanel.java:156-176 | a slot is filed under a weekday exactly when one of its tokens names it |
| Timetable.BlankHasNoTokens | src/main/java/edu/univ/erp/ui/component/TimetablePanel.java:157-164 | a blank text has no token that names a day |
| Timetable.NormalizeDayIgnoresCase | src/main/java/edu/univ/erp/ui/component/TimetablePanel.java:161 | slots that are equal up to case land on the same day |
| Timetable.TokensSplit | src/main/java/edu/univ/erp/ui/component/TimetablePanel.java:164 | a separator splits the token list in two |
| Timetable.FirstNamedDayDecides | src/main/java/edu/univ/erp/ui/component/TimetablePanel.java:164-173 | the first token that names a day decides, so "Mon/Wed 10:00" is Monday |
| Timetable.GroupIsFilter | src/main/java/edu/univ/erp/ui/component/TimetablePanel.java:145-154 | a day has a group exactly when some entry falls on it, and the group holds exactly those entries, in input order |
| Timetable.GroupedKeys | src/main/java/edu/univ/erp/ui/component/TimetablePanel.java:145-154 | a day has a group exactly when some entry falls on it |
| Timetable.GroupedContents | src/main/java/edu/univ/erp/ui/component/TimetablePanel.java:145-154 | a day's group, or nothing when it has none, is the entries of that day in input order |
| Timetable.GroupByDay | src/main/java/edu/univ/erp/ui/component/TimetablePanel.java:145-154 | the loop builds exactly the grouping by normalised day |
| Timetable.RankOfDayOrder | src/main/java/edu/univ/erp/ui/component/TimetablePanel.java:107-111 | the rank of each day in the display order is its position |
| Timetable.DayOrderDistinct | src/main/java/edu/univ/erp/ui/component/TimetablePanel.java:107-111 | the display order names each day once |
| Timetable.DayInOrder | src/main/java/edu/univ/erp/ui/component/TimetablePanel.java:107-111 | every day the normaliser returns has its place in the display order |
| Timetable.LayoutFrom | src/main/java/edu/univ/erp/ui/component/TimetablePanel.java:113-119 | each panel shows a day with entries, with that day's group, and panels follow the fixed day order |
| Timetable.LayoutDays | src/main/java/edu/univ/erp/ui/component/TimetablePanel.java:107-119 | the display loop builds exactly the panels of the specification |
| Timetable.KeyGroupsAppend | src/main/java/edu/univ/erp/ui/component/TimetablePanel.java:145-154 | one more element adds itself to the groups exactly when its key is listed |
| Timetable.KeyGroupsPermutation | src/main/java/edu/univ/erp/ui/component/TimetablePanel.java:145-154 | the groups of distinct keys that cover every element together hold each element once |
| Timetable.LayoutShowsGroups | src/main/java/edu/univ/erp/ui/component/TimetablePanel.java:113-119 | the panels show, day by day, exactly the groups of the display order's days |
| Timetable.TimetableShowsEveryEntryOnce | src/main/java/edu/univ/erp/ui/component/TimetablePanel.java:105-119 | the timetable shows every entry exactly once |
| Timetable.Safe | src/main/java/edu/univ/erp/ui/component/TimetablePanel.java:238-240 | null becomes the empty text; anything else becomes the slice left by dropping only characters up to U+0020 from the ends, with none of them left at either end |
| Timetable.SafeIsTheTrimmedSlice | src/main/java/edu/univ/erp/ui/component/TimetablePanel.java:238-240 | that slice is unique: any slice of the text with the same property is the result of `safe` |
| Timetable.SafeIdempotent | src/main/java/edu/univ/erp/ui/component/TimetablePanel.java:238-240 | applying `safe` to its own output changes nothing |
| Dates.IsAfterIrreflexive | src/main/java/edu/univ/erp/service/StudentService.java:47 | a date is never after itself, so the deadline day is still open |
| Dates.FormatDate | src/main/java/edu/univ/erp/data/SettingsRepository.java:97 | the ISO text is ten characters with dashes at positions 4 and 7 |
| Dates.ParseDate | src/main/java/edu/univ/erp/data/SettingsRepository.java:84 | whatever text the parser accepts is the canonical text of the date it returns |
| Dates.ParseFormatRoundTrip | src/main/java/edu/univ/erp/data/SettingsRepository.java:92-104 | a date written as ISO text parses back to itself |
| Text.Lower | src/main/java/edu/univ/erp/ui/component/TimetablePanel.java:161 | lower-casing keeps the length |
| Text.LowerKeepsBlank | src/main/java/edu/univ/erp/ui/component/TimetablePanel.java:157-161 | lower-casing never changes whether a text is blank |
| Text.Trim | src/main/java/edu/univ/erp/service/AdminService.java:128 | the result is the slice left after dropping the characters up to U+0020 at both ends |
| Text.TrimIsTheTrimmedSlice | src/main/java/edu/univ/erp/service/AdminService.java:128 | the slice `trim` leaves is unique: any slice with untrimmable ends that drops only trimmable characters is the trim |
| Text.ParseInt | src/main/java/edu/univ/erp/data/SettingsRepository.java:73 | a parsed value fits 32 bits, and the empty text does not parse |
| Text.ParseIntToString | src/main/java/edu/univ/erp/data/SettingsRepository.java:73 | a 32-bit int printed in decimal parses back to itself |
| Text.StrLeTotal | src/main/java/edu/univ/erp/service/StudentService.java:272 | string comparison is total |
| Text.StrLeTransitive | src/main/java/edu/univ/erp/service/StudentService.java:272 | string comparison is transitive |
| Text.StrLeAntisymmetric | src/main/java/edu/univ/erp/service/StudentService.java:272 | strings that compare both ways are equal |
| Seqs.SortBy | src/main/java/edu/univ/erp/service/StudentService.java:315 | `List.sort` with a comparator returns a sorted rearrangement of its input |

## Left out

- The SQL layer is replaced by in-memory tables. Statements, connections, SQLState codes and the MySQL collation are not modelled; text comparisons in queries are exact.
- A failed read, which most repositories log and turn into an empty result, is not modelled: reads are total over the table. A failed write is a nondeterministic `false` that changes nothing.
- `Sections.SectionRepository.UpdateSection`: a store error in `updateSection` throws an unchecked exception (SectionRepository.java:224) that `AdminService.updateSection` does not catch; the model turns it into `false`, so the service reports its ordinary "not updated" failure instead of letting the exception escape. The table is unchanged either way.
- `Catalog.CourseRepository.UpdateCourse`: the same for `updateCourse` (CourseRepository.java:100), which the model turns into `false` and `AdminService.updateCourse` into its "not updated" failure.
- `Enrollments.CountBySection`: a store error in `countEnrollmentsBySection` throws an unchecked exception (EnrollmentRepository.java:166) that `updateSection` and `deleteSection` do not catch; the model's count is a total function over the table, so that exception, which aborts the operation before any write, is not modelled.
- Concurrency is not modelled. This includes the capacity check-then-insert of registration and the read-then-write of the grade upsert; every operation runs alone.
- `LocalDate.now()` and the database's `CURRENT_TIMESTAMP` are parameters (`today`, `now`).
- Logging, the Swing panels, the dialogs and the card text of the timetable (the "Unknown / TBA" label and the instructor line) are not modelled.
- BCrypt is not modelled: the hasher is a pair of uninterpreted functions `hash` and `check`. Lemmas that need a password to match its own hash say so in their `requires`.
- The session singleton is a field of `Auth.AuthService`.
- Scores, sums and averages are exact reals, so IEEE rounding is not modelled.
- `Text.Lower`: only ASCII letters are folded, and strings are sequences of characters rather than UTF-16 units. `Text.EqualsIgnoreCase` has the same limit.
- `Dates.ParseDate`: only four-digit years are modelled. `LocalDate` also accepts signed years with more than four digits.
- `Students.StudentService.GetMyTimetable`: the result is proved sorted and a permutation of the rows. Which of two rows with the same course code comes first, which a stable sort fixes, is not stated.
- `Students.StudentService.GenerateTranscriptData`: the same as for the timetable, for rows with the same term and code.
- `Instructors.InstructorService.ComputeFinalGrades`: the success and incomplete counters only feed the log, so they are not modelled; only the failure count, which the error message carries, is. The generic `catch (Exception)` branch has no source of exceptions left in the model, because store errors are already `false`.
- `Instructors.InstructorService.ComputeFinalGrades` and `Instructors.InstructorService.EnterScore` take a non-null `User`, because the source dereferences the user in its first log line.
- Grade rows always have a component name, and `Instructors.InstructorService.EnterScore` takes a non-null component. The source filters rows with a null component, but nothing in this model can create one.
- `program`, `department` and `year` in account provisioning are non-null values. The source passes them through unchecked.
- `Timetable.Tokens`: the empty first token that Java's `split` yields for a text starting with a separator is dropped. An empty token names no day, so the result of `normalizeDay` is the same.
- `Timetable.GroupByDay`: the map's insertion order (a `LinkedHashMap`) is not modelled, because the display loop reads the map in the fixed day order and never iterates it.
- The read-only lists that only join or pass through other stores are not modelled: `InstructorService.getMySections`, `StudentService.getMyRegistrations`, `SectionRepository.findAllBySemesterAndYear` and `findSectionsByCourse`, `CourseRepository.findAll`, `InstructorProfileRepository.findAll`, and the admin read API. Their join logic is the same as the timetable's.
- The boundary and score parsing of the gradebook panel is not modelled; the service-side boundary check is.
