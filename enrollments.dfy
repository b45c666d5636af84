/** The enrollments table: a student's registrations in sections. */
module Enrollments {
  import opened Wrappers
  import opened Seqs
  import opened Domain

  /** Row ids are unique and below the next id the table will hand out,
      and no student holds two rows for the same section (the table's
      unique key, which the insert's constraint-violation branch relies
      on). */
  ghost predicate TableValid(rows: seq<Enrollment>, nextId: int) {
    && (forall i :: 0 <= i < |rows| ==> rows[i].enrollmentId < nextId)
    && Pairwise(rows, DistinctRows)
  }

  predicate DistinctRows(a: Enrollment, b: Enrollment) {
    a.enrollmentId != b.enrollmentId && (a.studentId != b.studentId || a.sectionId != b.sectionId)
  }

  /** `exists(studentId, sectionId)`: some row pairs them. */
  predicate Exists(rows: seq<Enrollment>, studentId: int, sectionId: int) {
    exists i :: 0 <= i < |rows| && rows[i].studentId == studentId && rows[i].sectionId == sectionId
  }

  /** The rows `findByStudentId` returns: every row of that student, in
      table order. */
  function ByStudent(rows: seq<Enrollment>, studentId: int): seq<Enrollment> {
    Filter(rows, (e: Enrollment) => e.studentId == studentId)
  }

  /** The rows `findBySectionId` returns. */
  function BySection(rows: seq<Enrollment>, sectionId: int): seq<Enrollment> {
    Filter(rows, InSection(sectionId))
  }

  function InSection(sectionId: int): Enrollment -> bool {
    (e: Enrollment) => e.sectionId == sectionId
  }

  /** A section's roster, taken from a valid table, names each enrollment
      once. */
  lemma RosterDistinct(rows: seq<Enrollment>, nextId: int, sectionId: int)
    requires TableValid(rows, nextId)
    ensures Pairwise(BySection(rows, sectionId), DistinctRows)
  {
    FilterPairwise(rows, InSection(sectionId), DistinctRows);
  }

  /** `findById(enrollmentId)`: the row with that id, if any. */
  function FindById(rows: seq<Enrollment>, enrollmentId: int): (r: Option<Enrollment>)
    ensures r.Some? ==> r.value in rows && r.value.enrollmentId == enrollmentId
    ensures r.None? <==> forall e :: e in rows ==> e.enrollmentId != enrollmentId
  {
    FindFirst(rows, (e: Enrollment) => e.enrollmentId == enrollmentId)
  }

  /** `countEnrollmentsBySection(sectionId)` (and the section store's
      `getEnrollmentCount`): the number of rows of that section, whatever
      their status. */
  function CountBySection(rows: seq<Enrollment>, sectionId: int): nat {
    |BySection(rows, sectionId)|
  }

  /** Counting a section's rows after one more row is appended. */
  lemma CountAppend(rows: seq<Enrollment>, e: Enrollment, sectionId: int)
    ensures CountBySection(rows + [e], sectionId)
            == CountBySection(rows, sectionId) + (if e.sectionId == sectionId then 1 else 0)
  {
    assert (rows + [e])[..|rows + [e]| - 1] == rows;
  }

  /** A section has no rows exactly when its count is zero. */
  lemma CountZero(rows: seq<Enrollment>, sectionId: int)
    ensures CountBySection(rows, sectionId) == 0 <==> forall e :: e in rows ==> e.sectionId != sectionId
  {
    var f := BySection(rows, sectionId);
    if |f| != 0 {
      assert f[0] in f;
    }
  }

  function NotId(enrollmentId: int): Enrollment -> bool {
    (e: Enrollment) => e.enrollmentId != enrollmentId
  }

  /** The rows left after deleting every row with `enrollmentId`. */
  function WithoutId(rows: seq<Enrollment>, enrollmentId: int): (r: seq<Enrollment>)
    ensures forall e :: e in r <==> e in rows && e.enrollmentId != enrollmentId
  {
    Filter(rows, NotId(enrollmentId))
  }

  /** Deleting one row keeps the table valid. */
  lemma WithoutIdValid(rows: seq<Enrollment>, nextId: int, enrollmentId: int)
    requires TableValid(rows, nextId)
    ensures TableValid(WithoutId(rows, enrollmentId), nextId)
  {
    var r := WithoutId(rows, enrollmentId);
    FilterPairwise(rows, NotId(enrollmentId), DistinctRows);
    forall i | 0 <= i < |r| ensures r[i].enrollmentId < nextId {
      assert r[i] in rows;
    }
  }

  /** The enrollments table. */
  class EnrollmentRepository {
    var rows: seq<Enrollment>
    var nextId: int

    ghost predicate Valid()
      reads this
    {
      TableValid(rows, nextId)
    }

    constructor()
      ensures Valid() && rows == []
    {
      rows := [];
      nextId := 1;
    }

    /** `create(studentId, sectionId)`: inserts one row with a fresh id and
        status "Enrolled". An existing row for the pair violates the unique
        key and, like any store error, returns false with nothing added. */
    method Create(studentId: int, sectionId: int) returns (ok: bool)
      requires Valid()
      modifies this
      ensures Valid()
      ensures Exists(old(rows), studentId, sectionId) ==> !ok
      ensures ok ==> rows == old(rows) + [Enrollment(old(nextId), studentId, sectionId, ENROLLED)]
      ensures !ok ==> rows == old(rows)
    {
      if Exists(rows, studentId, sectionId) {
        return false;
      }
      ok := *;
      if ok {
        rows := rows + [Enrollment(nextId, studentId, sectionId, ENROLLED)];
        nextId := nextId + 1;
      }
    }

    /** `deleteById(enrollmentId)`: removes that row; false when no row
        had the id (or on a store error), with nothing removed. */
    method DeleteById(enrollmentId: int) returns (ok: bool)
      requires Valid()
      modifies this
      ensures Valid()
      ensures FindById(old(rows), enrollmentId).None? ==> !ok
      ensures ok ==> rows == WithoutId(old(rows), enrollmentId)
      ensures !ok ==> rows == old(rows)
    {
      if FindById(rows, enrollmentId).None? {
        return false;
      }
      ok := *;
      if ok {
        WithoutIdValid(rows, nextId, enrollmentId);
        rows := WithoutId(rows, enrollmentId);
      }
    }

    /** `findByStudentId(studentId)`: collects the student's rows while
        scanning the table. */
    method FindByStudentId(studentId: int) returns (result: seq<Enrollment>)
      ensures result == ByStudent(rows, studentId)
    {
      result := [];
      var i := 0;
      while i < |rows|
        invariant 0 <= i <= |rows|
        invariant result == ByStudent(rows[..i], studentId)
      {
        assert rows[..i + 1][..i] == rows[..i];
        if rows[i].studentId == studentId {
          result := result + [rows[i]];
        }
        i := i + 1;
      }
      assert rows[..i] == rows;
    }

    /** `findBySectionId(sectionId)`: collects the section's rows while
        scanning the table. */
    method FindBySectionId(sectionId: int) returns (result: seq<Enrollment>)
      ensures result == BySection(rows, sectionId)
    {
      result := [];
      var i := 0;
      while i < |rows|
        invariant 0 <= i <= |rows|
        invariant result == BySection(rows[..i], sectionId)
      {
        assert rows[..i + 1][..i] == rows[..i];
        if rows[i].sectionId == sectionId {
          result := result + [rows[i]];
        }
        i := i + 1;
      }
      assert rows[..i] == rows;
    }
  }
}
