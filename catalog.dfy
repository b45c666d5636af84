/** The stores the workflows read and write besides the core tables: the
    course catalog and the student and instructor profiles. Each is a
    single-statement insert, update or lookup. */
module Catalog {
  import opened Wrappers
  import opened Seqs
  import opened Domain

  predicate DistinctCourses(a: Course, b: Course) {
    a.courseId != b.courseId && a.code != b.code
  }

  /** Course ids and codes are unique. */
  ghost predicate CoursesValid(rows: seq<Course>, nextId: int) {
    && (forall i :: 0 <= i < |rows| ==> rows[i].courseId < nextId)
    && Pairwise(rows, DistinctCourses)
  }

  function HasCourseId(courseId: int): Course -> bool {
    (c: Course) => c.courseId == courseId
  }

  function SetTitleAndCredits(title: string, credits: int): Course -> Course {
    (c: Course) => c.(title := title, credits := credits)
  }

  /** `CourseRepository.findById(courseId)`. */
  function FindCourse(rows: seq<Course>, courseId: int): (r: Option<Course>)
    ensures r.Some? ==> r.value in rows && r.value.courseId == courseId
    ensures r.None? <==> forall c :: c in rows ==> c.courseId != courseId
  {
    FindFirst(rows, HasCourseId(courseId))
  }

  /** A student profile row: the roll number, program and year stored
      for an account. */
  datatype StudentRecord = StudentRecord(rollNo: string, program: string, year: int)

  /** An instructor profile row. */
  datatype InstructorRecord = InstructorRecord(name: string, department: string)

  /** `StudentProfileRepository.findProfileByUserId(userId)`. */
  function FindStudentProfile(students: map<int, StudentRecord>, userId: int): (r: Option<StudentProfile>)
    ensures r.Some? <==> userId in students
    ensures r.Some? ==> r.value == StudentProfile(userId, students[userId].rollNo, students[userId].program)
  {
    if userId in students then Some(StudentProfile(userId, students[userId].rollNo, students[userId].program)) else None
  }

  /** `InstructorProfileRepository.findProfileByUserId(userId)`. */
  function FindInstructorProfile(instructors: map<int, InstructorRecord>, userId: int): (r: Option<InstructorProfile>)
    ensures r.Some? <==> userId in instructors
    ensures r.Some? ==> r.value == InstructorProfile(userId, instructors[userId].name, instructors[userId].department)
  {
    if userId in instructors then Some(InstructorProfile(userId, instructors[userId].name, instructors[userId].department)) else None
  }

  /** The course catalog. */
  class CourseRepository {
    var rows: seq<Course>
    var nextId: int

    ghost predicate Valid()
      reads this
    {
      CoursesValid(rows, nextId)
    }

    constructor()
      ensures Valid() && rows == []
    {
      rows := [];
      nextId := 1;
    }

    /** `createCourse(code, title, credits)`: a taken code violates the
        unique key and, like a store error, returns false. */
    method CreateCourse(code: string, title: string, credits: int) returns (ok: bool)
      requires Valid()
      modifies this
      ensures Valid()
      ensures (exists c :: c in old(rows) && c.code == code) ==> !ok
      ensures ok ==> rows == old(rows) + [Course(old(nextId), code, title, credits)]
      ensures !ok ==> rows == old(rows)
    {
      if exists c :: c in rows && c.code == code {
        return false;
      }
      ok := *;
      if ok {
        rows := rows + [Course(nextId, code, title, credits)];
        nextId := nextId + 1;
      }
    }

    /** `updateCourse(courseId, title, credits)`: true exactly when one
        row was updated. */
    method UpdateCourse(courseId: int, title: string, credits: int) returns (ok: bool)
      requires Valid()
      modifies this
      ensures Valid()
      ensures FindCourse(old(rows), courseId).None? ==> !ok
      ensures ok ==> rows == UpdateWhere(old(rows), HasCourseId(courseId), SetTitleAndCredits(title, credits))
      ensures !ok ==> rows == old(rows)
    {
      if FindCourse(rows, courseId).None? {
        return false;
      }
      ok := *;
      if ok {
        rows := UpdateWhere(rows, HasCourseId(courseId), SetTitleAndCredits(title, credits));
      }
    }
  }

  /** The student profiles, keyed by account id. */
  class StudentProfileRepository {
    var students: map<int, StudentRecord>

    constructor()
      ensures students == map[]
    {
      students := map[];
    }

    /** `createStudent(userId, rollNo, program, year)`: an account that
        already has a profile violates the key; that and any store error
        return false with nothing added. */
    method CreateStudent(userId: int, rollNo: string, program: string, year: int) returns (ok: bool)
      modifies this
      ensures userId in old(students) ==> !ok
      ensures ok ==> students == old(students)[userId := StudentRecord(rollNo, program, year)]
      ensures !ok ==> students == old(students)
    {
      if userId in students {
        return false;
      }
      ok := *;
      if ok {
        students := students[userId := StudentRecord(rollNo, program, year)];
      }
    }
  }

  /** The instructor profiles, keyed by account id. */
  class InstructorProfileRepository {
    var instructors: map<int, InstructorRecord>

    constructor()
      ensures instructors == map[]
    {
      instructors := map[];
    }

    /** `createInstructor(userId, name, department)`. */
    method CreateInstructor(userId: int, name: string, department: string) returns (ok: bool)
      modifies this
      ensures userId in old(instructors) ==> !ok
      ensures ok ==> instructors == old(instructors)[userId := InstructorRecord(name, department)]
      ensures !ok ==> instructors == old(instructors)
    {
      if userId in instructors {
        return false;
      }
      ok := *;
      if ok {
        instructors := instructors[userId := InstructorRecord(name, department)];
      }
    }
  }
}
