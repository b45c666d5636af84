/** The sections table: the offerings of a course in a term, with their
    instructor, slot, room and capacity. */
module Sections {
  import opened Wrappers
  import opened Seqs
  import opened Domain

  predicate DistinctIds(a: Section, b: Section) {
    a.sectionId != b.sectionId
  }

  /** Section ids are unique and below the next id the table hands out. */
  ghost predicate TableValid(rows: seq<Section>, nextId: int) {
    && (forall i :: 0 <= i < |rows| ==> rows[i].sectionId < nextId)
    && Pairwise(rows, DistinctIds)
  }

  /** Two rows of a valid table with the same id are the same row. */
  lemma SameIdSameSection(rows: seq<Section>, nextId: int, a: Section, b: Section)
    requires TableValid(rows, nextId) && a in rows && b in rows && a.sectionId == b.sectionId
    ensures a == b
  {
    var i :| 0 <= i < |rows| && rows[i] == a;
    var j :| 0 <= j < |rows| && rows[j] == b;
  }

  /** `findById(sectionId)`: the stored section with all its fields, or
      `None`. */
  function FindById(rows: seq<Section>, sectionId: int): (r: Option<Section>)
    ensures r.Some? ==> r.value in rows && r.value.sectionId == sectionId
    ensures r.None? <==> forall s :: s in rows ==> s.sectionId != sectionId
  {
    FindFirst(rows, HasId(sectionId))
  }

  function HasId(sectionId: int): Section -> bool {
    (s: Section) => s.sectionId == sectionId
  }

  /** The sections `findByInstructorIdAndTerm` returns: those whose
      instructor, semester and year all match, in table order. */
  function ByInstructorAndTerm(rows: seq<Section>, instructorId: int, semester: string, year: int): seq<Section> {
    Filter(rows, (s: Section) => s.instructorId == Some(instructorId) && s.semester == semester && s.year == year)
  }

  function NotId(sectionId: int): Section -> bool {
    (s: Section) => s.sectionId != sectionId
  }

  /** What `updateInstructor` does to the matching row. */
  function SetInstructor(instructorId: Option<int>): Section -> Section {
    (s: Section) => s.(instructorId := instructorId)
  }

  /** What `updateSection` does to the matching row: everything but the id
      and the course is overwritten. */
  function SetDetails(instructorId: Option<int>, dayTime: Option<string>, room: Option<string>,
                      capacity: int, semester: string, year: int): Section -> Section
  {
    (s: Section) => s.(instructorId := instructorId, dayTime := dayTime, room := room,
                       capacity := capacity, semester := semester, year := year)
  }

  /** After an update that keeps ids, looking up the updated id finds the
      updated row and looking up any other id finds what it found before. */
  lemma FindAfterUpdate(rows: seq<Section>, sectionId: int, update: Section -> Section, other: int)
    requires forall s :: update(s).sectionId == s.sectionId
    ensures FindById(UpdateWhere(rows, HasId(sectionId), update), other)
            == if other == sectionId && FindById(rows, other).Some? then Some(update(FindById(rows, other).value))
               else FindById(rows, other)
  {
    FindFirstUpdate(rows, HasId(sectionId), update, HasId(other));
  }

  /** Updates that keep ids keep the table valid. */
  lemma UpdateValid(rows: seq<Section>, nextId: int, sectionId: int, update: Section -> Section)
    requires TableValid(rows, nextId)
    requires forall s :: update(s).sectionId == s.sectionId
    ensures TableValid(UpdateWhere(rows, HasId(sectionId), update), nextId)
  {
  }

  /** Reassigning a section's instructor keeps the table valid and changes
      only that field of the row. */
  lemma InstructorUpdated(rows: seq<Section>, nextId: int, sectionId: int, instructorId: Option<int>)
    requires TableValid(rows, nextId) && FindById(rows, sectionId).Some?
    ensures var updated := UpdateWhere(rows, HasId(sectionId), SetInstructor(instructorId));
            && TableValid(updated, nextId)
            && FindById(updated, sectionId) == Some(FindById(rows, sectionId).value.(instructorId := instructorId))
  {
    FindAfterUpdate(rows, sectionId, SetInstructor(instructorId), sectionId);
    UpdateValid(rows, nextId, sectionId, SetInstructor(instructorId));
  }

  /** Overwriting a section's details keeps the table valid and leaves the
      row with its id and course and the new details. */
  lemma DetailsUpdated(rows: seq<Section>, nextId: int, sectionId: int, instructorId: Option<int>, dayTime: Option<string>,
                       room: Option<string>, capacity: int, semester: string, year: int)
    requires TableValid(rows, nextId) && FindById(rows, sectionId).Some?
    ensures var updated := UpdateWhere(rows, HasId(sectionId), SetDetails(instructorId, dayTime, room, capacity, semester, year));
            && TableValid(updated, nextId)
            && FindById(updated, sectionId)
               == Some(Section(sectionId, FindById(rows, sectionId).value.courseId,
                               instructorId, dayTime, room, capacity, semester, year))
  {
    var update := SetDetails(instructorId, dayTime, room, capacity, semester, year);
    FindAfterUpdate(rows, sectionId, update, sectionId);
    UpdateValid(rows, nextId, sectionId, update);
  }

  /** Deleting a section keeps the table valid and leaves no row with
      its id. */
  lemma DeleteValid(rows: seq<Section>, nextId: int, sectionId: int)
    requires TableValid(rows, nextId)
    ensures TableValid(Filter(rows, NotId(sectionId)), nextId)
    ensures FindById(Filter(rows, NotId(sectionId)), sectionId).None?
  {
    var r := Filter(rows, NotId(sectionId));
    FilterPairwise(rows, NotId(sectionId), DistinctIds);
    forall i | 0 <= i < |r| ensures r[i].sectionId < nextId && r[i].sectionId != sectionId {
      assert r[i] in rows;
    }
  }

  /** The sections table. */
  class SectionRepository {
    var rows: seq<Section>
    var nextId: int

    ghost predicate Valid()
      reads this
    {
      TableValid(rows, nextId)
    }

    constructor()
      ensures Valid() && rows == []
    {
      rows := [];
      nextId := 1;
    }

    /** `createSection(...)`: inserts one section under a fresh id; a store
        error returns false with nothing added. */
    method CreateSection(courseId: int, instructorId: Option<int>, dayTime: Option<string>, room: Option<string>,
                         capacity: int, semester: string, year: int) returns (ok: bool)
      requires Valid()
      modifies this
      ensures Valid()
      ensures ok ==> rows == old(rows) + [Section(old(nextId), courseId, instructorId, dayTime, room, capacity, semester, year)]
      ensures !ok ==> rows == old(rows)
    {
      ok := *;
      if ok {
        rows := rows + [Section(nextId, courseId, instructorId, dayTime, room, capacity, semester, year)];
        nextId := nextId + 1;
      }
    }

    /** `updateInstructor(sectionId, instructorId)`: sets (or, with `None`,
        clears) the instructor and nothing else; false when the section is
        missing or the store fails, with nothing changed. */
    method UpdateInstructor(sectionId: int, instructorId: Option<int>) returns (ok: bool)
      requires Valid()
      modifies this
      ensures Valid()
      ensures FindById(old(rows), sectionId).None? ==> !ok
      ensures ok ==> rows == UpdateWhere(old(rows), HasId(sectionId), SetInstructor(instructorId))
      ensures ok ==> FindById(rows, sectionId) == Some(FindById(old(rows), sectionId).value.(instructorId := instructorId))
      ensures !ok ==> rows == old(rows)
    {
      if FindById(rows, sectionId).None? {
        return false;
      }
      ok := *;
      if ok {
        InstructorUpdated(rows, nextId, sectionId, instructorId);
        rows := UpdateWhere(rows, HasId(sectionId), SetInstructor(instructorId));
      }
    }

    /** `updateSection(...)`: overwrites instructor, slot, room, capacity,
        semester and year of one section; true exactly when one row was
        updated, so a missing section gives false. */
    method UpdateSection(sectionId: int, instructorId: Option<int>, dayTime: Option<string>, room: Option<string>,
                         capacity: int, semester: string, year: int) returns (ok: bool)
      requires Valid()
      modifies this
      ensures Valid()
      ensures FindById(old(rows), sectionId).None? ==> !ok
      ensures ok ==> rows == UpdateWhere(old(rows), HasId(sectionId), SetDetails(instructorId, dayTime, room, capacity, semester, year))
      ensures ok ==> FindById(rows, sectionId)
                     == Some(Section(sectionId, FindById(old(rows), sectionId).value.courseId,
                                     instructorId, dayTime, room, capacity, semester, year))
      ensures !ok ==> rows == old(rows)
    {
      if FindById(rows, sectionId).None? {
        return false;
      }
      ok := *;
      if ok {
        DetailsUpdated(rows, nextId, sectionId, instructorId, dayTime, room, capacity, semester, year);
        rows := UpdateWhere(rows, HasId(sectionId), SetDetails(instructorId, dayTime, room, capacity, semester, year));
      }
    }

    /** `deleteById(sectionId)`: removes the section; false when it does
        not exist (or the store refuses), with nothing removed. */
    method DeleteById(sectionId: int) returns (ok: bool)
      requires Valid()
      modifies this
      ensures Valid()
      ensures FindById(old(rows), sectionId).None? ==> !ok
      ensures ok ==> rows == Filter(old(rows), NotId(sectionId))
      ensures ok ==> FindById(rows, sectionId).None?
      ensures !ok ==> rows == old(rows)
    {
      if FindById(rows, sectionId).None? {
        return false;
      }
      ok := *;
      if ok {
        DeleteValid(rows, nextId, sectionId);
        rows := Filter(rows, NotId(sectionId));
      }
    }

    /** `findByInstructorIdAndTerm(instructorId, semester, year)`: collects
        the matching sections while scanning the table. */
    method FindByInstructorIdAndTerm(instructorId: int, semester: string, year: int) returns (result: seq<Section>)
      ensures result == ByInstructorAndTerm(rows, instructorId, semester, year)
    {
      result := [];
      var i := 0;
      while i < |rows|
        invariant 0 <= i <= |rows|
        invariant result == ByInstructorAndTerm(rows[..i], instructorId, semester, year)
      {
        assert rows[..i + 1][..i] == rows[..i];
        var s := rows[i];
        if s.instructorId == Some(instructorId) && s.semester == semester && s.year == year {
          result := result + [s];
        }
        i := i + 1;
      }
      assert rows[..i] == rows;
    }
  }
}
