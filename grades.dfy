/** The grades table: one row per assessment component of an enrollment,
    with the final letter copied onto every row of the enrollment. */
module Grades {
  import opened Wrappers
  import opened Text
  import opened Seqs
  import opened Domain

  predicate DistinctIds(a: Grade, b: Grade) {
    a.gradeId != b.gradeId
  }

  /** Grade ids are unique and below the next id the table hands out. */
  ghost predicate TableValid(rows: seq<Grade>, nextId: int) {
    && (forall i :: 0 <= i < |rows| ==> rows[i].gradeId < nextId)
    && Pairwise(rows, DistinctIds)
  }

  predicate DistinctKeys(a: Grade, b: Grade) {
    a.enrollmentId != b.enrollmentId || a.component != b.component
  }

  /** At most one row per (enrollment, component). The table has no such
      constraint; the upsert is what keeps it. */
  predicate NoDuplicateKeys(rows: seq<Grade>) {
    Pairwise(rows, DistinctKeys)
  }

  function OfEnrollment(enrollmentId: int): Grade -> bool {
    (g: Grade) => g.enrollmentId == enrollmentId
  }

  function NotOfEnrollment(enrollmentId: int): Grade -> bool {
    (g: Grade) => g.enrollmentId != enrollmentId
  }

  function HasKey(enrollmentId: int, component: string): Grade -> bool {
    (g: Grade) => g.enrollmentId == enrollmentId && g.component == component
  }

  function HasGradeId(gradeId: int): Grade -> bool {
    (g: Grade) => g.gradeId == gradeId
  }

  function SetScore(score: Option<real>): Grade -> Grade {
    (g: Grade) => g.(score := score)
  }

  function SetFinal(finalGrade: Option<string>): Grade -> Grade {
    (g: Grade) => g.(finalGrade := finalGrade)
  }

  /** The rows `findByEnrollmentId` returns: every row of the enrollment,
      in table order. */
  function ByEnrollment(rows: seq<Grade>, enrollmentId: int): seq<Grade> {
    Filter(rows, OfEnrollment(enrollmentId))
  }

  /** `findByEnrollmentAndComponent`: the first row with that key. */
  function FindByEnrollmentAndComponent(rows: seq<Grade>, enrollmentId: int, component: string): (r: Option<Grade>)
    ensures r.Some? ==> r.value in rows && r.value.enrollmentId == enrollmentId && r.value.component == component
    ensures r.None? <==> forall g :: g in rows ==> !(g.enrollmentId == enrollmentId && g.component == component)
  {
    FindFirst(rows, HasKey(enrollmentId, component))
  }

  /** The table after `saveOrUpdateScore`: the existing row for the key
      gets the new score, or a new row with the score and no final grade
      is appended. */
  function SavedRows(rows: seq<Grade>, nextId: int, enrollmentId: int, component: string, score: Option<real>): seq<Grade> {
    match FindByEnrollmentAndComponent(rows, enrollmentId, component)
    case Some(g) => UpdateWhere(rows, HasGradeId(g.gradeId), SetScore(score))
    case None => rows + [Grade(nextId, enrollmentId, component, score, None)]
  }

  /** The stored form of a final letter: null or blank is stored as NULL. */
  function StoredLetter(letter: Option<string>): (r: Option<string>)
    ensures r.Some? ==> !IsBlank(r.value) && r == letter
    ensures NullOrBlank(letter) ==> r.None?
  {
    if NullOrBlank(letter) then None else letter
  }

  predicate HasFinalLetter(g: Grade) {
    !NullOrBlank(g.finalGrade)
  }

  /** The first non-null, non-blank final grade among an enrollment's rows. */
  function FirstFinalGrade(grades: seq<Grade>): (r: Option<string>)
    ensures r.Some? ==> !IsBlank(r.value) && exists g :: g in grades && g.finalGrade == r
    ensures r.None? <==> forall g :: g in grades ==> NullOrBlank(g.finalGrade)
    ensures r.Some? ==> exists i :: 0 <= i < |grades| && grades[i].finalGrade == r
                                    && forall j :: 0 <= j < i ==> NullOrBlank(grades[j].finalGrade)
  {
    match FindFirst(grades, HasFinalLetter)
    case None => None
    case Some(g) => g.finalGrade
  }

  /** Two tables that agree row by row on enrollment ids, and fully on the
      rows of one enrollment, give that enrollment the same rows. */
  lemma {:induction false} ByEnrollmentUnchanged(a: seq<Grade>, b: seq<Grade>, enrollmentId: int)
    requires |a| == |b|
    requires forall k :: 0 <= k < |a| ==> a[k].enrollmentId == b[k].enrollmentId
    requires forall k :: 0 <= k < |a| && a[k].enrollmentId == enrollmentId ==> a[k] == b[k]
    ensures ByEnrollment(a, enrollmentId) == ByEnrollment(b, enrollmentId)
  {
    if a != [] {
      ByEnrollmentUnchanged(a[..|a| - 1], b[..|b| - 1], enrollmentId);
    }
  }

  /** Two rows of a valid table with the same id are the same row. */
  lemma SameIdSameRow(rows: seq<Grade>, nextId: int, a: Grade, b: Grade)
    requires TableValid(rows, nextId) && a in rows && b in rows && a.gradeId == b.gradeId
    ensures a == b
  {
    var i :| 0 <= i < |rows| && rows[i] == a;
    var j :| 0 <= j < |rows| && rows[j] == b;
  }

  /** After saving, the key's row holds the new score; an existing row
      keeps its final grade and a new row has none. */
  lemma SaveThenFind(rows: seq<Grade>, nextId: int, enrollmentId: int, component: string, score: Option<real>)
    ensures var before := FindByEnrollmentAndComponent(rows, enrollmentId, component);
            var after := FindByEnrollmentAndComponent(SavedRows(rows, nextId, enrollmentId, component, score), enrollmentId, component);
            && after.Some?
            && after.value.score == score
            && after.value.finalGrade == (if before.Some? then before.value.finalGrade else None)
            && (before.Some? ==> after.value.gradeId == before.value.gradeId)
  {
    var key := HasKey(enrollmentId, component);
    match FindByEnrollmentAndComponent(rows, enrollmentId, component)
    case Some(g) =>
      FindFirstUpdate(rows, HasGradeId(g.gradeId), SetScore(score), key);
    case None =>
      FindFirstAppend(rows, Grade(nextId, enrollmentId, component, score, None), key);
  }

  /** Saving one key leaves the lookup of every other key unchanged. */
  lemma SaveKeepsOtherKeys(rows: seq<Grade>, nextId: int, enrollmentId: int, component: string, score: Option<real>,
                           otherEnrollment: int, otherComponent: string)
    requires TableValid(rows, nextId)
    requires otherEnrollment != enrollmentId || otherComponent != component
    ensures FindByEnrollmentAndComponent(SavedRows(rows, nextId, enrollmentId, component, score), otherEnrollment, otherComponent)
            == FindByEnrollmentAndComponent(rows, otherEnrollment, otherComponent)
  {
    var key := HasKey(otherEnrollment, otherComponent);
    match FindByEnrollmentAndComponent(rows, enrollmentId, component)
    case Some(g) =>
      FindFirstUpdate(rows, HasGradeId(g.gradeId), SetScore(score), key);
      var found := FindByEnrollmentAndComponent(rows, otherEnrollment, otherComponent);
      if found.Some? && found.value.gradeId == g.gradeId {
        SameIdSameRow(rows, nextId, found.value, g);
      }
    case None =>
      FindFirstAppend(rows, Grade(nextId, enrollmentId, component, score, None), key);
  }

  /** Saving keeps ids unique and never creates a second row for a key. */
  lemma SaveKeepsInvariants(rows: seq<Grade>, nextId: int, enrollmentId: int, component: string, score: Option<real>)
    requires TableValid(rows, nextId)
    ensures var saved := SavedRows(rows, nextId, enrollmentId, component, score);
            && TableValid(saved, if FindByEnrollmentAndComponent(rows, enrollmentId, component).Some? then nextId else nextId + 1)
            && (NoDuplicateKeys(rows) ==> NoDuplicateKeys(saved))
  {
    match FindByEnrollmentAndComponent(rows, enrollmentId, component)
    case Some(g) => ScoreUpdateKeepsInvariants(rows, nextId, g.gradeId, score);
    case None =>
      assert forall i :: 0 <= i < |rows| ==> rows[i] in rows;
      InsertKeepsInvariants(rows, nextId, Grade(nextId, enrollmentId, component, score, None));
  }

  /** Rewriting a score leaves every id and key where it was. */
  lemma ScoreUpdateKeepsInvariants(rows: seq<Grade>, nextId: int, gradeId: int, score: Option<real>)
    requires TableValid(rows, nextId)
    ensures var saved := UpdateWhere(rows, HasGradeId(gradeId), SetScore(score));
            && TableValid(saved, nextId)
            && (NoDuplicateKeys(rows) ==> NoDuplicateKeys(saved))
  {
    var saved := UpdateWhere(rows, HasGradeId(gradeId), SetScore(score));
    assert forall i :: 0 <= i < |rows| ==> (saved[i].gradeId == rows[i].gradeId
                                         && saved[i].enrollmentId == rows[i].enrollmentId
                                         && saved[i].component == rows[i].component);
  }

  /** A new row with a fresh id and an unused key keeps both invariants. */
  lemma InsertKeepsInvariants(rows: seq<Grade>, nextId: int, added: Grade)
    requires TableValid(rows, nextId) && added.gradeId == nextId
    requires forall i :: 0 <= i < |rows| ==> DistinctKeys(rows[i], added)
    ensures TableValid(rows + [added], nextId + 1)
    ensures NoDuplicateKeys(rows) ==> NoDuplicateKeys(rows + [added])
  {
    var saved := rows + [added];
    assert forall i :: 0 <= i < |rows| ==> saved[i] == rows[i];
  }

  /** After the final-grade update every row of the enrollment carries the
      stored letter, and no other enrollment's rows change. */
  lemma FinalGradeOnEveryRow(rows: seq<Grade>, enrollmentId: int, letter: Option<string>, other: int)
    requires other != enrollmentId
    ensures var updated := UpdateWhere(rows, OfEnrollment(enrollmentId), SetFinal(StoredLetter(letter)));
            && |ByEnrollment(updated, enrollmentId)| == |ByEnrollment(rows, enrollmentId)|
            && (forall g :: g in ByEnrollment(updated, enrollmentId) ==> g.finalGrade == StoredLetter(letter))
            && ByEnrollment(updated, other) == ByEnrollment(rows, other)
  {
    var updated := UpdateWhere(rows, OfEnrollment(enrollmentId), SetFinal(StoredLetter(letter)));
    FilterUpdateDisjoint(rows, OfEnrollment(enrollmentId), SetFinal(StoredLetter(letter)), OfEnrollment(other));
    FilterUpdateCount(rows, enrollmentId, StoredLetter(letter));
  }

  lemma {:induction false} FilterUpdateCount(rows: seq<Grade>, enrollmentId: int, stored: Option<string>)
    ensures |ByEnrollment(UpdateWhere(rows, OfEnrollment(enrollmentId), SetFinal(stored)), enrollmentId)|
            == |ByEnrollment(rows, enrollmentId)|
  {
    if rows != [] {
      var u := UpdateWhere(rows, OfEnrollment(enrollmentId), SetFinal(stored));
      assert u[..|u| - 1] == UpdateWhere(rows[..|rows| - 1], OfEnrollment(enrollmentId), SetFinal(stored));
      FilterUpdateCount(rows[..|rows| - 1], enrollmentId, stored);
    }
  }

  /** After deleting an enrollment's grades none are left, and every other
      enrollment keeps exactly its rows. */
  lemma DeleteLeavesOthers(rows: seq<Grade>, enrollmentId: int, other: int)
    requires other != enrollmentId
    ensures ByEnrollment(Filter(rows, NotOfEnrollment(enrollmentId)), enrollmentId) == []
    ensures ByEnrollment(Filter(rows, NotOfEnrollment(enrollmentId)), other) == ByEnrollment(rows, other)
  {
    var kept := Filter(rows, NotOfEnrollment(enrollmentId));
    FilterFilter(rows, NotOfEnrollment(enrollmentId), OfEnrollment(other));
  }

  /** Deleting rows keeps ids unique and keys unduplicated. */
  lemma DeleteKeepsInvariants(rows: seq<Grade>, nextId: int, enrollmentId: int)
    requires TableValid(rows, nextId)
    ensures TableValid(Filter(rows, NotOfEnrollment(enrollmentId)), nextId)
    ensures NoDuplicateKeys(rows) ==> NoDuplicateKeys(Filter(rows, NotOfEnrollment(enrollmentId)))
  {
    var kept := Filter(rows, NotOfEnrollment(enrollmentId));
    FilterPairwise(rows, NotOfEnrollment(enrollmentId), DistinctIds);
    if NoDuplicateKeys(rows) {
      FilterPairwise(rows, NotOfEnrollment(enrollmentId), DistinctKeys);
    }
    forall i | 0 <= i < |kept| ensures kept[i].gradeId < nextId {
      assert kept[i] in rows;
    }
  }

  /** The grades table. */
  class GradeRepository {
    var rows: seq<Grade>
    var nextId: int

    ghost predicate Valid()
      reads this
    {
      TableValid(rows, nextId)
    }

    constructor()
      ensures Valid() && rows == []
    {
      rows := [];
      nextId := 1;
    }

    /** `findByEnrollmentId(enrollmentId)`: collects the enrollment's rows
        while scanning the table. */
    method FindByEnrollmentId(enrollmentId: int) returns (result: seq<Grade>)
      ensures result == ByEnrollment(rows, enrollmentId)
    {
      result := [];
      var i := 0;
      while i < |rows|
        invariant 0 <= i <= |rows|
        invariant result == ByEnrollment(rows[..i], enrollmentId)
      {
        assert rows[..i + 1][..i] == rows[..i];
        if rows[i].enrollmentId == enrollmentId {
          result := result + [rows[i]];
        }
        i := i + 1;
      }
      assert rows[..i] == rows;
    }

    /** `saveOrUpdateScore(enrollmentId, component, score)`: reads the
        key's row, then updates its score by grade id or inserts a new
        row. An update reports success even when it changes nothing; a
        store error returns false with nothing written. */
    method SaveOrUpdateScore(enrollmentId: int, component: string, score: Option<real>) returns (ok: bool)
      requires Valid()
      modifies this
      ensures Valid()
      ensures ok ==> rows == SavedRows(old(rows), old(nextId), enrollmentId, component, score)
      ensures !ok ==> rows == old(rows)
      ensures NoDuplicateKeys(old(rows)) ==> NoDuplicateKeys(rows)
    {
      var existing := FindByEnrollmentAndComponent(rows, enrollmentId, component);
      ok := *;
      if ok {
        SaveKeepsInvariants(rows, nextId, enrollmentId, component, score);
        match existing
        case Some(g) =>
          rows := UpdateWhere(rows, HasGradeId(g.gradeId), SetScore(score));
        case None =>
          rows := rows + [Grade(nextId, enrollmentId, component, score, None)];
          nextId := nextId + 1;
      }
    }

    /** `updateFinalGradeForEnrollment(enrollmentId, letter)`: writes the
        letter (NULL when null or blank) onto every row of the enrollment;
        true even when there is no row, false only on a store error. */
    method UpdateFinalGradeForEnrollment(enrollmentId: int, letter: Option<string>) returns (ok: bool)
      requires Valid()
      modifies this
      ensures Valid()
      ensures ok ==> rows == UpdateWhere(old(rows), OfEnrollment(enrollmentId), SetFinal(StoredLetter(letter)))
      ensures !ok ==> rows == old(rows)
      ensures NoDuplicateKeys(old(rows)) ==> NoDuplicateKeys(rows)
    {
      ok := *;
      if ok {
        rows := UpdateWhere(rows, OfEnrollment(enrollmentId), SetFinal(StoredLetter(letter)));
      }
    }

    /** `deleteByEnrollmentId(enrollmentId)`: removes every row of the
        enrollment; true even when none matched, false only on a store
        error. */
    method DeleteByEnrollmentId(enrollmentId: int) returns (ok: bool)
      requires Valid()
      modifies this
      ensures Valid()
      ensures ok ==> rows == Filter(old(rows), NotOfEnrollment(enrollmentId))
      ensures ok ==> ByEnrollment(rows, enrollmentId) == []
      ensures !ok ==> rows == old(rows)
      ensures NoDuplicateKeys(old(rows)) ==> NoDuplicateKeys(rows)
    {
      ok := *;
      if ok {
        DeleteKeepsInvariants(rows, nextId, enrollmentId);
        DeleteLeavesOthers(rows, enrollmentId, enrollmentId + 1);
        rows := Filter(rows, NotOfEnrollment(enrollmentId));
      }
    }
  }
}
